/** The payload of a Service Discovery message: flags, entries array, options array. */
module SdMessages {
  import opened Bytes
  import opened ServiceEntries

  datatype SdContent = SdContent(entries: seq<Entry>, options: seq<SdOption>)

  // ----- The layout -----

  function EncodeEntries(entries: seq<Entry>): (s: seq<Byte>)
    ensures |s| == ENTRY_SIZE * |entries|
  {
    if entries == [] then [] else EncodeEntry(entries[0]) + EncodeEntries(entries[1..])
  }

  ghost predicate ValidOptions(options: seq<SdOption>) {
    forall o :: o in options ==> o.Valid()
  }

  ghost function EncodeOptions(options: seq<SdOption>): (s: seq<Byte>)
    requires ValidOptions(options)
    ensures |s| == OPTION_SIZE * |options|
  {
    if options == [] then [] else EncodeOption(options[0]) + EncodeOptions(options[1..])
  }

  /** The message layout: flags and three reserved octets, then each array behind its length. */
  ghost function Layout(head: seq<Byte>, content: SdContent): seq<Byte>
    requires |head| == 4 && ValidOptions(content.options)
  {
    head + Big(ENTRY_SIZE * |content.entries|, 4) + EncodeEntries(content.entries)
    + Big(OPTION_SIZE * |content.options|, 4) + EncodeOptions(content.options)
  }

  // ----- The parser -----

  function EntriesFrom(payload: seq<Byte>, offset: nat, end: nat): seq<Entry>
    decreases |payload| - offset
  {
    if offset + ENTRY_SIZE <= end && offset + ENTRY_SIZE <= |payload| then
      [DecodeEntry(payload[offset..offset + ENTRY_SIZE]).value] + EntriesFrom(payload, offset + ENTRY_SIZE, end)
    else []
  }

  function OptionsFrom(payload: seq<Byte>, offset: nat, end: nat): seq<SdOption>
    decreases |payload| - offset
  {
    if offset < end && offset < |payload| then
      var o := DecodeOption(payload[offset..], end - offset);
      if o.Some? then [o.value] + OptionsFrom(payload, offset + OPTION_SIZE, end) else []
    else []
  }

  /** A payload that is too short for a header, or for an options length where the entries end, is
      ignored as a whole. */
  function Parse(payload: seq<Byte>): Option<SdContent> {
    if |payload| < 12 then None
    else
      var entriesEnd := 8 + Read32(payload, 4);
      if entriesEnd + 4 > |payload| then None
      else
        var optionsEnd := entriesEnd + 4 + Read32(payload, entriesEnd);
        Some(SdContent(EntriesFrom(payload, 8, entriesEnd), OptionsFrom(payload, entriesEnd + 4, optionsEnd)))
  }

  method ParseEntries(payload: seq<Byte>, start: nat, entriesEnd: nat) returns (entries: seq<Entry>)
    ensures entries == EntriesFrom(payload, start, entriesEnd)
  {
    entries := [];
    var offset := start;
    while offset + ENTRY_SIZE <= entriesEnd && offset + ENTRY_SIZE <= |payload|
      invariant entries + EntriesFrom(payload, offset, entriesEnd) == EntriesFrom(payload, start, entriesEnd)
      decreases |payload| - offset
    {
      var entry := DecodeEntry(payload[offset..offset + ENTRY_SIZE]);
      ghost var later := EntriesFrom(payload, offset + ENTRY_SIZE, entriesEnd);
      assert EntriesFrom(payload, offset, entriesEnd) == [entry.value] + later;
      Assoc(entries, [entry.value], later);
      if entry.Some? {
        entries := entries + [entry.value];
      }
      offset := offset + ENTRY_SIZE;
    }
  }

  method ParseOptions(payload: seq<Byte>, start: nat, optionsEnd: nat) returns (options: seq<SdOption>)
    ensures options == OptionsFrom(payload, start, optionsEnd)
  {
    options := [];
    var offset := start;
    while offset < optionsEnd && offset < |payload|
      invariant options + OptionsFrom(payload, offset, optionsEnd) == OptionsFrom(payload, start, optionsEnd)
      decreases |payload| - offset
    {
      var option := DecodeOption(payload[offset..], optionsEnd - offset);
      if option.Some? {
        offset := offset + OPTION_SIZE;
        options := options + [option.value];
      } else {
        assert OptionsFrom(payload, offset, optionsEnd) == [];
        break;
      }
    }
  }

  method ParseSdMessage(payload: seq<Byte>) returns (content: Option<SdContent>)
    ensures content == Parse(payload)
  {
    if |payload| < 12 {
      return None;
    }
    var offset := 4; // flags and reserved
    var entriesLength := Read32(payload, offset);
    offset := offset + 4;
    var entriesEnd := offset + entriesLength;
    var entries := ParseEntries(payload, offset, entriesEnd);

    offset := entriesEnd;
    if offset + 4 > |payload| {
      return None;
    }
    var optionsLength := Read32(payload, offset);
    offset := offset + 4;
    var options := ParseOptions(payload, offset, offset + optionsLength);
    return Some(SdContent(entries, options));
  }

  // ----- The parser inverts the layout -----

  lemma {:induction false} EntriesParse(payload: seq<Byte>, at: nat, end: nat, entries: seq<Entry>)
    requires forall e :: e in entries ==> e.Canonical()
    requires at + ENTRY_SIZE * |entries| == end <= |payload| && payload[at..end] == EncodeEntries(entries)
    ensures EntriesFrom(payload, at, end) == entries
    decreases entries
  {
    if entries != [] {
      var next := at + ENTRY_SIZE;
      SliceOfSlice(payload, at, end, 0, ENTRY_SIZE);
      SliceOfSlice(payload, at, end, ENTRY_SIZE, end - at);
      assert payload[at..next] == EncodeEntries(entries)[0..ENTRY_SIZE] == EncodeEntry(entries[0]);
      DecodeEncodeEntry(entries[0]);
      EntriesParse(payload, next, end, entries[1..]);
    }
  }

  lemma {:induction false} OptionsParse(payload: seq<Byte>, at: nat, end: nat, options: seq<SdOption>)
    requires ValidOptions(options)
    requires at + OPTION_SIZE * |options| == end <= |payload| && payload[at..end] == EncodeOptions(options)
    ensures OptionsFrom(payload, at, end) == options
    decreases options
  {
    if options != [] {
      var next := at + OPTION_SIZE;
      SliceOfSlice(payload, at, end, 0, OPTION_SIZE);
      SliceOfSlice(payload, at, end, OPTION_SIZE, end - at);
      assert payload[at..next] == EncodeOptions(options)[0..OPTION_SIZE] == EncodeOption(options[0]);
      assert payload[at..] == EncodeOption(options[0]) + payload[next..];
      DecodeEncodeOption(options[0], payload[next..], end - at);
      OptionsParse(payload, next, end, options[1..]);
    }
  }

  /** The payload opens with the layout of the content: anything may stand in the flags and after it. */
  ghost predicate LaidOut(payload: seq<Byte>, content: SdContent) {
    var n, k := ENTRY_SIZE * |content.entries|, OPTION_SIZE * |content.options|;
    && ValidOptions(content.options)
    && 12 + n + k <= |payload|
    && payload[4..8] == Big(n, 4)
    && payload[8..8 + n] == EncodeEntries(content.entries)
    && payload[8 + n..12 + n] == Big(k, 4)
    && payload[12 + n..12 + n + k] == EncodeOptions(content.options)
  }

  lemma Cuts(h: seq<Byte>, a: seq<Byte>, es: seq<Byte>, b: seq<Byte>, os: seq<Byte>, t: seq<Byte>)
    requires |h| == |a| == |b| == 4
    ensures var p := h + a + es + b + os + t;
            && p[4..8] == a && p[8..8 + |es|] == es && p[8 + |es|..12 + |es|] == b
            && p[12 + |es|..12 + |es| + |os|] == os
  {
  }

  lemma LayoutLaidOut(head: seq<Byte>, content: SdContent, trailing: seq<Byte>)
    requires |head| == 4 && ValidOptions(content.options)
    ensures LaidOut(Layout(head, content) + trailing, content)
  {
    var n, k := ENTRY_SIZE * |content.entries|, OPTION_SIZE * |content.options|;
    Cuts(head, Big(n, 4), EncodeEntries(content.entries), Big(k, 4), EncodeOptions(content.options), trailing);
  }

  lemma ParseBy(payload: seq<Byte>, n: U32, k: U32, content: SdContent)
    requires 12 + n <= |payload| && Read32(payload, 4) == n && Read32(payload, 8 + n) == k
    requires EntriesFrom(payload, 8, 8 + n) == content.entries
    requires OptionsFrom(payload, 12 + n, 12 + n + k) == content.options
    ensures Parse(payload) == Some(content)
  {
  }

  lemma WordAt(payload: seq<Byte>, at: nat, x: U32)
    requires at + 4 <= |payload| && payload[at..at + 4] == Big(x, 4)
    ensures Read32(payload, at) == x
  {
    Limits();
    JoinBig(x, 4);
  }

  lemma LaidOutWords(payload: seq<Byte>, content: SdContent)
    requires LaidOut(payload, content)
    requires ENTRY_SIZE * |content.entries| < 0x1_0000_0000 && OPTION_SIZE * |content.options| < 0x1_0000_0000
    ensures Read32(payload, 4) == ENTRY_SIZE * |content.entries|
    ensures Read32(payload, 8 + ENTRY_SIZE * |content.entries|) == OPTION_SIZE * |content.options|
  {
    WordAt(payload, 4, ENTRY_SIZE * |content.entries|);
    WordAt(payload, 8 + ENTRY_SIZE * |content.entries|, OPTION_SIZE * |content.options|);
  }

  lemma LaidOutArrays(payload: seq<Byte>, content: SdContent, n: nat, k: nat)
    requires LaidOut(payload, content) && forall e :: e in content.entries ==> e.Canonical()
    requires n == ENTRY_SIZE * |content.entries| && k == OPTION_SIZE * |content.options|
    ensures EntriesFrom(payload, 8, 8 + n) == content.entries
    ensures OptionsFrom(payload, 12 + n, 12 + n + k) == content.options
  {
    var entriesEnd, start, end := 8 + n, 12 + n, 12 + n + k;
    assert EntriesFrom(payload, 8, entriesEnd) == content.entries by {
      EntriesParse(payload, 8, entriesEnd, content.entries);
    }
    assert OptionsFrom(payload, start, end) == content.options by {
      OptionsParse(payload, start, end, content.options);
    }
  }

  /** Every list of entries and every list of options comes back, in order, from its layout, whatever the
      flags and whatever follows the options. */
  lemma ParseLayout(payload: seq<Byte>, content: SdContent)
    requires LaidOut(payload, content) && forall e :: e in content.entries ==> e.Canonical()
    requires ENTRY_SIZE * |content.entries| < 0x1_0000_0000 && OPTION_SIZE * |content.options| < 0x1_0000_0000
    ensures Parse(payload) == Some(content)
  {
    var n, k := ENTRY_SIZE * |content.entries|, OPTION_SIZE * |content.options|;
    LaidOutWords(payload, content);
    LaidOutArrays(payload, content, n, k);
    ParseBy(payload, n, k, content);
  }

  // ----- Any payload -----

  /** Which payloads are parsed at all: those with a header, and a word behind the entries array. */
  lemma ParseExactly(payload: seq<Byte>)
    ensures Parse(payload).Some? <==> |payload| >= 12 && 12 + Read32(payload, 4) <= |payload|
  {
  }

  lemma {:induction false} EntriesAre(payload: seq<Byte>, offset: nat, end: nat, n: nat, k: nat)
    requires offset + 16 * n <= end < offset + 16 * n + 16 && end <= |payload|
    ensures |EntriesFrom(payload, offset, end)| == n
    ensures k < n ==> EntriesFrom(payload, offset, end)[k]
                      == DecodeEntry(payload[offset + 16 * k..offset + 16 * k + 16]).value
    decreases n
  {
    if n > 0 {
      EntriesAre(payload, offset + ENTRY_SIZE, end, n - 1, if k > 0 then k - 1 else 0);
    }
  }

  /** What is read off any payload that is parsed: an entry for every 16 octets of the entries array. */
  lemma ParsedEntries(payload: seq<Byte>, k: nat)
    requires Parse(payload).Some?
    ensures var entries := Parse(payload).value.entries;
            && |entries| == Read32(payload, 4) / 16
            && (k < |entries| ==> 8 + 16 * k + 16 <= |payload|
                                  && entries[k] == DecodeEntry(payload[8 + 16 * k..8 + 16 * k + 16]).value)
  {
    var length: int := Read32(payload, 4);
    EntriesAre(payload, 8, 8 + length, length / 16, k);
  }

  lemma {:induction false} OptionsAre(payload: seq<Byte>, offset: nat, end: nat, k: nat)
    ensures var options := OptionsFrom(payload, offset, end);
            && (k < |options|
                ==> && offset + 12 * k < end && offset + 12 * k < |payload|
                    && Some(options[k]) == DecodeOption(payload[offset + 12 * k..], end - (offset + 12 * k)))
            && (k == |options|
                ==> || offset + 12 * k >= end || offset + 12 * k >= |payload|
                    || DecodeOption(payload[offset + 12 * k..], end - (offset + 12 * k)) == None)
    decreases |payload| - offset
  {
    if k > 0 && offset < end && offset < |payload| {
      OptionsAre(payload, offset + OPTION_SIZE, end, k - 1);
    }
  }

  /** And one option after another, 12 octets apart, up to the first that is none or the end of the area. */
  lemma ParsedOptions(payload: seq<Byte>, k: nat)
    requires Parse(payload).Some?
    ensures var options := Parse(payload).value.options;
            var start := 12 + Read32(payload, 4);
            var at, end := start + 12 * k, start + Read32(payload, start - 4);
            && (k < |options| ==> at < end && at < |payload|
                                  && Some(options[k]) == DecodeOption(payload[at..], end - at))
            && (k == |options| ==> at >= end || at >= |payload| || DecodeOption(payload[at..], end - at) == None)
  {
    var start := 12 + Read32(payload, 4);
    OptionsAre(payload, start, start + Read32(payload, start - 4), k);
  }
}
