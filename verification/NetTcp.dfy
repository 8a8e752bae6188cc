/** The parser of /proc/net/snmp and /proc/net/netstat (internal/collector/nettcp/nettcp.go, parseProtoPairs). */
module NetTcp {
  import opened Prelude
  import opened Decimal
  import opened Words

  type Tables = map<string, map<string, uint64>>

  /** What one line of the file is to the parser; `Blank` has a colon and nothing after it. */
  datatype Line =
    | Ignored
    | Blank
    | Header(proto: string, fields: seq<string>)
    | Data(proto: string, tokens: seq<string>)

  function Classify(line: string): Line
  {
    var colon := IndexOf(line, ':');
    if colon < 0 then Ignored else Judge(line[..colon], Fields(TrimSpace(line[colon + 1..])))
  }

  /** What the words after a colon make of a line. */
  function Judge(proto: string, tokens: seq<string>): Line
  {
    if tokens == [] then Blank
    else if ParseUint(tokens[0]) == None then Header(proto, tokens)
    else Data(proto, tokens)
  }

  function ClassifyAll(lines: seq<string>): seq<Line>
  {
    seq(|lines|, i requires 0 <= i < |lines| => Classify(lines[i]))
  }

  // ---- Meaning

  /** The fields of the most recent header of a protocol. */
  function LatestHeader(ls: seq<Line>, proto: string): Option<seq<string>>
  {
    if ls == [] then None
    else if Last(ls).Header? && Last(ls).proto == proto then Some(Last(ls).fields)
    else LatestHeader(Front(ls), proto)
  }

  /** Line j is a data line of this protocol, and as long as the most recent header before it. */
  ghost predicate Matches(ls: seq<Line>, proto: string, j: nat)
  {
    && j < |ls| && ls[j].Data? && ls[j].proto == proto
    && var header := LatestHeader(ls[..j], proto);
       header.Some? && |header.value| == |ls[j].tokens|
  }

  /** Token k of line j is a value for this field. */
  ghost predicate Gives(ls: seq<Line>, proto: string, field: string, j: nat, k: nat)
  {
    && Matches(ls, proto, j)
    && k < |ls[j].tokens|
    && LatestHeader(ls[..j], proto).value[k] == field
    && Numeral(ls[j].tokens[k])
  }

  ghost predicate GivesLast(ls: seq<Line>, proto: string, field: string, j: nat, k: nat)
  {
    && Gives(ls, proto, field, j, k)
    && forall j': nat, k': nat :: Gives(ls, proto, field, j', k') ==> j' < j || (j' == j && k' <= k)
  }

  /** A data line writes its parseable tokens over what its table holds. */
  function Overlay(m: map<string, uint64>, fields: seq<string>, tokens: seq<string>): map<string, uint64>
    requires |fields| == |tokens|
  {
    if tokens == [] then m
    else
      var m' := Overlay(m, Front(fields), Front(tokens));
      var v := ParseUint(Last(tokens));
      if v.Some? then m'[Last(fields) := v.value] else m'
  }

  function AddLine(out: Tables, header: Option<seq<string>>, l: Line): Tables
    requires l.Data?
  {
    if header.Some? && |header.value| == |l.tokens|
    then out[l.proto := Overlay(GetOr(out, l.proto, map[]), header.value, l.tokens)]
    else out
  }

  function TablesOf(ls: seq<Line>): Tables
  {
    if ls == [] then map[]
    else
      var out, l := TablesOf(Front(ls)), Last(ls);
      if l.Data? then AddLine(out, LatestHeader(Front(ls), l.proto), l) else out
  }

  function Lookup(out: Tables, proto: string, field: string): Option<uint64>
  {
    if proto in out && field in out[proto] then Some(out[proto][field]) else None
  }

  ghost predicate TokenGives(fields: seq<string>, tokens: seq<string>, field: string, k: nat)
    requires |fields| == |tokens|
  {
    k < |tokens| && fields[k] == field && Numeral(tokens[k])
  }

  ghost predicate TokenGivesLast(fields: seq<string>, tokens: seq<string>, field: string, k: nat)
    requires |fields| == |tokens|
  {
    && TokenGives(fields, tokens, field, k)
    && forall k': nat :: TokenGives(fields, tokens, field, k') ==> k' <= k
  }

  /** Within a line, the last parseable token of a field wins; without one the field keeps what it had. */
  lemma {:induction false} OverlayMeaning(m: map<string, uint64>, fields: seq<string>, tokens: seq<string>,
                                          field: string)
    requires |fields| == |tokens|
    ensures var m' := Overlay(m, fields, tokens);
            || (exists k: nat :: TokenGivesLast(fields, tokens, field, k) && field in m'
                  && Unsigned(tokens[k], m'[field]))
            || ((forall k: nat :: !TokenGives(fields, tokens, field, k))
                && (field in m' <==> field in m) && (field in m ==> m'[field] == m[field]))
  {
    if tokens != [] {
      var fs, ts, n := Front(fields), Front(tokens), |tokens| - 1;
      OverlayMeaning(m, fs, ts, field);
      ParseUintMeaning(Last(tokens));
      forall k: nat | k < n
        ensures TokenGives(fields, tokens, field, k) <==> TokenGives(fs, ts, field, k)
      {
      }
      if TokenGives(fields, tokens, field, n) {
        assert TokenGivesLast(fields, tokens, field, n);
      } else if k: nat :| TokenGivesLast(fs, ts, field, k) {
        assert TokenGivesLast(fields, tokens, field, k);
      }
    }
  }

  /** The most recent header: a header of the protocol with none after it. */
  lemma {:induction false} LatestHeaderMeaning(ls: seq<Line>, proto: string)
    ensures match LatestHeader(ls, proto)
            case Some(fields) =>
              exists i: nat :: i < |ls| && ls[i] == Header(proto, fields)
                && forall j :: i < j < |ls| ==> !(ls[j].Header? && ls[j].proto == proto)
            case None => forall j :: 0 <= j < |ls| ==> !(ls[j].Header? && ls[j].proto == proto)
  {
    if ls != [] {
      LatestHeaderMeaning(Front(ls), proto);
      assert forall j :: 0 <= j < |ls| - 1 ==> Front(ls)[j] == ls[j];
    }
  }

  /** The last line of a sequence changes which tokens give a field only by what it gives itself. */
  lemma GivesByLine(ls: seq<Line>, proto: string, field: string, j: nat, k: nat)
    requires ls != []
    ensures j != |ls| - 1 ==> (Gives(ls, proto, field, j, k) <==> Gives(Front(ls), proto, field, j, k))
    ensures Gives(ls, proto, field, |ls| - 1, k) <==>
              var l, header := Last(ls), LatestHeader(Front(ls), proto);
              && l.Data? && l.proto == proto && header.Some? && |header.value| == |l.tokens|
              && TokenGives(header.value, l.tokens, field, k)
  {
    if j < |ls| - 1 {
      assert Front(ls)[..j] == ls[..j];
    }
    assert ls[..|ls| - 1] == Front(ls);
  }

  /**
    The tables hold, for each protocol and field, the last parseable value of a data line that fits the most
    recent earlier header of its protocol; and nothing for a field that no such line gives.
   */
  lemma {:induction false} TablesMeaning(ls: seq<Line>, proto: string, field: string)
    ensures match Lookup(TablesOf(ls), proto, field)
            case Some(v) =>
              exists j: nat, k: nat ::
                GivesLast(ls, proto, field, j, k) && Unsigned(ls[j].tokens[k], v)
            case None => forall j: nat, k: nat :: !Gives(ls, proto, field, j, k)
  {
    if ls != [] {
      TablesMeaning(Front(ls), proto, field);
      forall j: nat, k: nat
        ensures j != |ls| - 1 ==> (Gives(ls, proto, field, j, k) <==> Gives(Front(ls), proto, field, j, k))
        ensures Gives(ls, proto, field, |ls| - 1, k) <==>
                  var l, header := Last(ls), LatestHeader(Front(ls), proto);
                  && l.Data? && l.proto == proto && header.Some? && |header.value| == |l.tokens|
                  && TokenGives(header.value, l.tokens, field, k)
      {
        GivesByLine(ls, proto, field, j, k);
      }
      var out, l, header := TablesOf(Front(ls)), Last(ls), LatestHeader(Front(ls), proto);
      if l.Data? && l.proto == proto && header.Some? && |header.value| == |l.tokens| {
        OverlayMeaning(GetOr(out, proto, map[]), header.value, l.tokens, field);
      }
    }
  }

  // ---- What a line is

  /** A line is everything before its first colon, the colon, and words. */
  ghost predicate Splits(line: string, proto: string, tokens: seq<string>)
  {
    && ':' !in proto && proto + ":" <= line
    && HasWords(line[|proto| + 1..], tokens)
  }

  lemma ColonSplits(line: string, proto: string)
    requires ':' !in proto && proto + ":" <= line
    ensures IndexOf(line, ':') == |proto| && line[..|proto|] == proto
  {
    IndexOfAfter(proto, ':', line[|proto| + 1..]);
    assert line == proto + [':'] + line[|proto| + 1..];
  }

  lemma ColonIs(line: string)
    requires IndexOf(line, ':') >= 0
    ensures var i := IndexOf(line, ':'); ':' !in line[..i] && line[..i] + ":" <= line && |line[..i]| == i
  {
    var i := IndexOf(line, ':');
    assert line == line[..i] + ":" + line[i + 1..];
  }

  lemma SplitsIff(line: string, proto: string, tokens: seq<string>)
    ensures Splits(line, proto, tokens) <==>
              var i := IndexOf(line, ':');
              i >= 0 && line[..i] == proto && Fields(TrimSpace(line[i + 1..])) == tokens
  {
    var i := IndexOf(line, ':');
    if i >= 0 {
      ColonIs(line);
      WordsAfter(line, i, tokens);
    }
    if ':' !in proto && proto + ":" <= line {
      ColonSplits(line, proto);
    }
  }

  lemma WordsAfter(line: string, i: nat, tokens: seq<string>)
    requires i < |line|
    ensures Fields(TrimSpace(line[i + 1..])) == tokens <==> HasWords(line[i + 1..], tokens)
  {
    TrimKeepsFields(line[i + 1..]);
    FieldsMeaning(line[i + 1..], tokens);
  }

  /**
    Without a colon a line is ignored. With one, what is before it is the protocol, and the words after it are values
    if the first of them is an unsigned 64-bit numeral, and field names otherwise.
   */
  lemma ClassifyMeaning(line: string, proto: string, tokens: seq<string>)
    ensures Classify(line) == Ignored <==> ':' !in line
    ensures Classify(line) == Header(proto, tokens)
            <==> Splits(line, proto, tokens) && tokens != [] && !Numeral(tokens[0])
    ensures Classify(line) == Data(proto, tokens)
            <==> Splits(line, proto, tokens) && tokens != [] && Numeral(tokens[0])
  {
    var i := IndexOf(line, ':');
    SplitsIff(line, proto, tokens);
    if i >= 0 {
      FirstTokenDecides(line[..i], Fields(TrimSpace(line[i + 1..])), proto, tokens);
    }
  }

  lemma FirstTokenDecides(p: string, ts: seq<string>, proto: string, tokens: seq<string>)
    ensures Judge(p, ts) == Header(proto, tokens) <==> p == proto && ts == tokens && ts != [] && !Numeral(ts[0])
    ensures Judge(p, ts) == Data(proto, tokens) <==> p == proto && ts == tokens && ts != [] && Numeral(ts[0])
  {
    if ts != [] {
      ParseUintMeaning(ts[0]);
    }
  }

  // ---- Protocols do not mix

  /** The header and data lines of one protocol. */
  function Only(ls: seq<Line>, proto: string): seq<Line>
  {
    if ls == [] then []
    else
      var l := Last(ls);
      Only(Front(ls), proto) + if (l.Header? || l.Data?) && l.proto == proto then [l] else []
  }

  function TableFor(out: Tables, proto: string): Option<map<string, uint64>>
  {
    if proto in out then Some(out[proto]) else None
  }

  /** A protocol's table depends on that protocol's own lines only, however others are interleaved with them. */
  lemma {:induction false} ProtocolsDoNotMix(ls: seq<Line>, proto: string)
    ensures LatestHeader(Only(ls, proto), proto) == LatestHeader(ls, proto)
    ensures TableFor(TablesOf(Only(ls, proto)), proto) == TableFor(TablesOf(ls), proto)
  {
    if ls != [] {
      ProtocolsDoNotMix(Front(ls), proto);
      var l := Last(ls);
      if (l.Header? || l.Data?) && l.proto == proto {
        assert Front(Only(ls, proto)) == Only(Front(ls), proto);
      } else {
        assert Only(ls, proto) == Only(Front(ls), proto);
      }
    }
  }

  // ---- The parser

  datatype Pending = Pending(proto: string, fields: seq<string>)

  /** Go panics when it takes the first token of a line that has none. */
  datatype Outcome = Parsed(tables: Tables) | Panicked

  function Spec(ls: seq<Line>): Outcome
  {
    if Blank in ls then Panicked else Parsed(TablesOf(ls))
  }

  /** The headers seen so far, oldest first, find the same header as the lines do. */
  ghost predicate Remembers(headers: seq<Pending>, ls: seq<Line>)
  {
    forall proto :: Newest(headers, proto) == LatestHeader(ls, proto)
  }

  function Newest(headers: seq<Pending>, proto: string): Option<seq<string>>
  {
    if headers == [] then None
    else if Last(headers).proto == proto then Some(Last(headers).fields)
    else Newest(Front(headers), proto)
  }

  /** The backward search for the last header of a protocol. */
  method FindHeader(headers: seq<Pending>, proto: string) returns (hdr: Option<seq<string>>)
    ensures hdr == Newest(headers, proto)
  {
    var i := |headers| - 1;
    assert headers[..|headers|] == headers;
    while i >= 0
      invariant -1 <= i < |headers|
      invariant Newest(headers[..i + 1], proto) == Newest(headers, proto)
    {
      assert Front(headers[..i + 1]) == headers[..i];
      if headers[i].proto == proto {
        return Some(headers[i].fields);
      }
      i := i - 1;
    }
    return None;
  }

  /** The inner loop: store the parseable tokens under their fields. */
  method Store(table: map<string, uint64>, fields: seq<string>, tokens: seq<string>)
    returns (m: map<string, uint64>)
    requires |fields| == |tokens|
    ensures m == Overlay(table, fields, tokens)
  {
    m := table;
    for i := 0 to |tokens|
      invariant m == Overlay(table, fields[..i], tokens[..i])
    {
      assert Front(fields[..i + 1]) == fields[..i] && Front(tokens[..i + 1]) == tokens[..i];
      var v := ParseUint(tokens[i]);
      if v.Some? {
        m := m[fields[i] := v.value];
      }
    }
    assert fields[..|tokens|] == fields && tokens[..|tokens|] == tokens;
  }

  /** What one more line adds to the headers and the tables. */
  lemma OneMoreLine(before: seq<Line>, l: Line)
    ensures TablesOf(before + [l])
            == if l.Data? then AddLine(TablesOf(before), LatestHeader(before, l.proto), l) else TablesOf(before)
    ensures forall proto :: LatestHeader(before + [l], proto)
                            == if l.Header? && l.proto == proto then Some(l.fields) else LatestHeader(before, proto)
  {
    assert Front(before + [l]) == before;
  }

  /** One round of the scan. */
  method ParseLine(line: string, headers: seq<Pending>, out: Tables, ghost before: seq<Line>)
    returns (headers': seq<Pending>, out': Tables, panics: bool)
    requires Remembers(headers, before) && out == TablesOf(before)
    ensures panics <==> Classify(line) == Blank
    ensures !panics ==> Remembers(headers', before + [Classify(line)]) && out' == TablesOf(before + [Classify(line)])
  {
    headers', out', panics := headers, out, false;
    ghost var l := Classify(line);
    OneMoreLine(before, l);
    var colon := IndexOf(line, ':');
    if colon < 0 {
      return;
    }
    var proto := line[..colon];
    var rest := TrimSpace(line[colon + 1..]);
    var tokens := Fields(rest);
    if |tokens| == 0 {
      panics := true;
      return;
    }
    if ParseUint(tokens[0]) == None {
      headers' := headers + [Pending(proto, tokens)];
      assert Front(headers') == headers;
      assert l == Header(proto, tokens);
      return;
    }
    var hdr := FindHeader(headers, proto);
    assert l == Data(proto, tokens) && hdr == LatestHeader(before, proto);
    if hdr == None || |tokens| != |hdr.value| {
      return;
    }
    var m := Store(GetOr(out, proto, map[]), hdr.value, tokens);
    out' := out[proto := m];
  }

  /** parseProtoPairs, over the lines that the scanner yields. */
  method ParseProtoPairs(lines: seq<string>) returns (r: Outcome)
    ensures r == Spec(ClassifyAll(lines))
  {
    var out: Tables := map[];
    var headers: seq<Pending> := [];
    ghost var ls := ClassifyAll(lines);
    for n := 0 to |lines|
      invariant Blank !in ls[..n]
      invariant Remembers(headers, ls[..n])
      invariant out == TablesOf(ls[..n])
    {
      var panics;
      headers, out, panics := ParseLine(lines[n], headers, out, ls[..n]);
      if panics {
        assert ls[n] == Blank;
        return Panicked;
      }
      assert ls[..n + 1] == ls[..n] + [ls[n]];
    }
    assert ls[..|lines|] == ls;
    return Parsed(out);
  }

  /** A line makes the parser panic if and only if it has a colon and only white space, if anything, after it. */
  lemma BlankIff(line: string)
    ensures Classify(line) == Blank
            <==> IndexOf(line, ':') >= 0 && AllSpace(line[IndexOf(line, ':') + 1..])
  {
    if IndexOf(line, ':') >= 0 {
      NoFieldsIff(line[IndexOf(line, ':') + 1..]);
    }
  }

  /** One such line anywhere, and nothing of the file is reported. */
  lemma PanicsIff(lines: seq<string>)
    ensures Spec(ClassifyAll(lines)) == Panicked
            <==> exists i :: 0 <= i < |lines| && IndexOf(lines[i], ':') >= 0
                   && AllSpace(lines[i][IndexOf(lines[i], ':') + 1..])
  {
    var ls := ClassifyAll(lines);
    forall i | 0 <= i < |lines|
      ensures ls[i] == Blank <==> IndexOf(lines[i], ':') >= 0 && AllSpace(lines[i][IndexOf(lines[i], ':') + 1..])
    {
      BlankIff(lines[i]);
    }
  }

  lemma ABareProtocolPanics(line: string)
    requires line == "Tcp:"
    ensures Spec(ClassifyAll([line])) == Panicked
  {
    IndexOfAfter("Tcp", ':', "");
    assert line == "Tcp" + [':'] + "" && line[4..] == "";
    BlankIff(line);
    assert ClassifyAll([line])[0] == Blank;
  }

  // ---- Round trip

  datatype Section = Section(proto: string, entries: seq<(string, uint64)>)

  function Names(entries: seq<(string, uint64)>): (names: seq<string>)
    ensures |names| == |entries|
  {
    seq(|entries|, i requires 0 <= i < |entries| => entries[i].0)
  }

  function Values(entries: seq<(string, uint64)>): (values: seq<string>)
    ensures |values| == |entries|
  {
    seq(|entries|, i requires 0 <= i < |entries| => Format(entries[i].1))
  }

  /** A header line and a data line. */
  function PrintSection(s: Section): seq<string>
  {
    [s.proto + ":" + Spaced(Names(s.entries)), s.proto + ":" + Spaced(Values(s.entries))]
  }

  function Print(sections: seq<Section>): seq<string>
  {
    if sections == [] then [] else Print(Front(sections)) + PrintSection(Last(sections))
  }

  /** What the kernel's own sections look like: a colon-free name, and at least one distinctly named field. */
  ghost predicate Printable(s: Section)
  {
    && ':' !in s.proto
    && s.entries != []
    && (forall i :: 0 <= i < |s.entries| ==> IsWord(s.entries[i].0))
    && (forall i, j :: 0 <= i < j < |s.entries| ==> s.entries[i].0 != s.entries[j].0)
  }

  ghost predicate AllPrintable(sections: seq<Section>)
  {
    && (forall i :: 0 <= i < |sections| ==> Printable(sections[i]))
    && (forall i, j :: 0 <= i < j < |sections| ==> sections[i].proto != sections[j].proto)
  }

  function EntryMap(entries: seq<(string, uint64)>): map<string, uint64>
  {
    if entries == [] then map[] else EntryMap(Front(entries))[Last(entries).0 := Last(entries).1]
  }

  function TableMap(sections: seq<Section>): Tables
  {
    if sections == [] then map[]
    else TableMap(Front(sections))[Last(sections).proto := EntryMap(Last(sections).entries)]
  }

  /** The parser takes a line for data as soon as its first token is a number. */
  ghost predicate NumericFirst(s: Section)
  {
    s.entries != [] && Numeral(s.entries[0].0)
  }

  lemma ClassifyPrinted(proto: string, words: seq<string>)
    requires ':' !in proto && words != [] && forall k :: 0 <= k < |words| ==> IsWord(words[k])
    ensures Classify(proto + ":" + Spaced(words))
            == if Numeral(words[0]) then Data(proto, words) else Header(proto, words)
  {
    var line := proto + ":" + Spaced(words);
    IndexOfAfter(proto, ':', Spaced(words));
    assert line[..|proto|] == proto && line[|proto| + 1..] == Spaced(words);
    FieldsOfTrimmed(words);
    ParseUintMeaning(words[0]);
  }

  lemma FormatIsNumber(v: uint64)
    ensures IsWord(Format(v)) && ParseUint(Format(v)) == Some(v) && Numeral(Format(v))
  {
    ValueOfFormat(v);
    ParseUintMeaning(Format(v));
    assert forall i :: 0 <= i < |Format(v)| ==> IsDigit(Format(v)[i]);
  }

  lemma {:induction false} OverlayOfValues(entries: seq<(string, uint64)>)
    ensures Overlay(map[], Names(entries), Values(entries)) == EntryMap(entries)
  {
    if entries != [] {
      OverlayOfValues(Front(entries));
      assert Front(Names(entries)) == Names(Front(entries));
      assert Front(Values(entries)) == Values(Front(entries));
      FormatIsNumber(Last(entries).1);
    }
  }

  ghost function Kept(sections: seq<Section>): seq<Section>
  {
    if sections == [] then []
    else Kept(Front(sections)) + if NumericFirst(Last(sections)) then [] else [Last(sections)]
  }

  /** What the parser makes of a printed section. */
  ghost function SectionLines(s: Section): seq<Line>
  {
    [if NumericFirst(s) then Data(s.proto, Names(s.entries)) else Header(s.proto, Names(s.entries)),
     Data(s.proto, Values(s.entries))]
  }

  ghost function LinesOf(sections: seq<Section>): seq<Line>
  {
    if sections == [] then [] else LinesOf(Front(sections)) + SectionLines(Last(sections))
  }

  lemma SectionReads(s: Section)
    requires Printable(s)
    ensures ClassifyAll(PrintSection(s)) == SectionLines(s)
  {
    var names, values := Names(s.entries), Values(s.entries);
    forall i | 0 <= i < |s.entries|
      ensures IsWord(names[i]) && IsWord(values[i]) && Numeral(values[i])
    {
      FormatIsNumber(s.entries[i].1);
    }
    ClassifyPrinted(s.proto, names);
    ClassifyPrinted(s.proto, values);
  }

  lemma {:induction false} PrintReads(sections: seq<Section>)
    requires AllPrintable(sections)
    ensures ClassifyAll(Print(sections)) == LinesOf(sections) && Blank !in LinesOf(sections)
  {
    if sections != [] {
      PrintReads(Front(sections));
      SectionReads(Last(sections));
      assert ClassifyAll(Print(sections))
          == ClassifyAll(Print(Front(sections))) + ClassifyAll(PrintSection(Last(sections)));
    }
  }

  lemma NumericSectionIsLost(ls: seq<Line>, s: Section)
    requires s.entries != [] && NumericFirst(s) && LatestHeader(ls, s.proto) == None
    ensures TablesOf(ls + SectionLines(s)) == TablesOf(ls)
    ensures forall p :: LatestHeader(ls + SectionLines(s), p) == LatestHeader(ls, p)
  {
    var more, half := ls + SectionLines(s), ls + [SectionLines(s)[0]];
    assert Front(more) == half && Front(half) == ls;
  }

  lemma SectionIsAdded(ls: seq<Line>, s: Section)
    requires !NumericFirst(s) && s.proto !in TablesOf(ls)
    ensures TablesOf(ls + SectionLines(s)) == TablesOf(ls)[s.proto := EntryMap(s.entries)]
    ensures forall p :: p != s.proto ==> LatestHeader(ls + SectionLines(s), p) == LatestHeader(ls, p)
  {
    var more, half := ls + SectionLines(s), ls + [SectionLines(s)[0]];
    assert Front(more) == half && Front(half) == ls;
    assert LatestHeader(half, s.proto) == Some(Names(s.entries));
    OverlayOfValues(s.entries);
  }

  ghost predicate Unseen(sections: seq<Section>, proto: string)
  {
    forall i :: 0 <= i < |sections| ==> sections[i].proto != proto
  }

  lemma {:induction false} PrintedParses(sections: seq<Section>, proto: string)
    requires AllPrintable(sections)
    ensures TablesOf(LinesOf(sections)) == TableMap(Kept(sections))
    ensures Unseen(sections, proto) ==>
              LatestHeader(LinesOf(sections), proto) == None && proto !in TablesOf(LinesOf(sections))
  {
    if sections != [] {
      var before, s := Front(sections), Last(sections);
      assert Printable(s);
      assert Unseen(before, s.proto);
      assert Unseen(sections, proto) ==> Unseen(before, proto) && s.proto != proto by {
        assert s == sections[|sections| - 1];
      }
      PrintedParses(before, proto);
      PrintedParses(before, s.proto);
      if NumericFirst(s) {
        NumericSectionIsLost(LinesOf(before), s);
        assert Kept(sections) == Kept(before);
      } else {
        SectionIsAdded(LinesOf(before), s);
        assert Front(Kept(sections)) == Kept(before);
      }
    }
  }

  lemma {:induction false} TableMapKeys(sections: seq<Section>, proto: string)
    ensures proto in TableMap(sections) <==> exists i :: 0 <= i < |sections| && sections[i].proto == proto
  {
    if sections != [] {
      TableMapKeys(Front(sections), proto);
      assert sections[|sections| - 1] == Last(sections);
      assert forall i :: 0 <= i < |sections| - 1 ==> Front(sections)[i] == sections[i];
    }
  }

  lemma {:induction false} KeptAre(sections: seq<Section>, s: Section)
    ensures s in Kept(sections) <==> s in sections && !NumericFirst(s)
  {
    if sections != [] {
      KeptAre(Front(sections), s);
      assert sections == Front(sections) + [Last(sections)];
    }
  }

  lemma {:induction false} KeptAll(sections: seq<Section>)
    requires forall i :: 0 <= i < |sections| ==> !NumericFirst(sections[i])
    ensures Kept(sections) == sections
  {
    if sections != [] {
      var before, s := Front(sections), Last(sections);
      assert s == sections[|sections| - 1] && sections == before + [s];
      KeptAll(before);
      KeptOneMore(before, s);
    }
  }

  lemma KeptOneMore(before: seq<Section>, s: Section)
    requires !NumericFirst(s)
    ensures Kept(before + [s]) == Kept(before) + [s]
  {
    assert Front(before + [s]) == before;
  }

  lemma LostSectionIsMissing(sections: seq<Section>, i: nat)
    requires AllPrintable(sections) && i < |sections| && NumericFirst(sections[i])
    ensures sections[i].proto in TableMap(sections) && sections[i].proto !in TableMap(Kept(sections))
  {
    var kept, proto := Kept(sections), sections[i].proto;
    TableMapKeys(sections, proto);
    TableMapKeys(kept, proto);
    forall k | 0 <= k < |kept|
      ensures kept[k].proto != proto
    {
      KeptAre(sections, kept[k]);
      var j :| 0 <= j < |sections| && sections[j] == kept[k];
      assert j != i;
    }
  }

  /**
    Round trip. Printing any sections with distinct protocols and reading them back never panics, and gives exactly
    their tables if and only if no section's first field name is itself a number: a section like that is lost, and
    only it.
   */
  lemma RoundTrip(sections: seq<Section>)
    requires AllPrintable(sections)
    ensures Spec(ClassifyAll(Print(sections))) == Parsed(TableMap(Kept(sections)))
    ensures Spec(ClassifyAll(Print(sections))) == Parsed(TableMap(sections))
            <==> forall i :: 0 <= i < |sections| ==> !NumericFirst(sections[i])
  {
    PrintReads(sections);
    PrintedParses(sections, "");
    if forall i :: 0 <= i < |sections| ==> !NumericFirst(sections[i]) {
      KeptAll(sections);
    } else {
      var i :| 0 <= i < |sections| && NumericFirst(sections[i]);
      LostSectionIsMissing(sections, i);
    }
  }

  // ---- An instance

  lemma SpacedTwo(a: string, b: string)
    ensures Spaced([a, b]) == " " + a + (" " + b)
  {
    assert [a, b][1..] == [b] && [b][1..] == [];
    assert Spaced([b]) == " " + b + "";
  }

  lemma MaxConnLines(header: string, data: string)
    requires header == "Tcp: RtoMax MaxConn" && data == "Tcp: 120000 -1"
    ensures header == "Tcp" + ":" + Spaced(["RtoMax", "MaxConn"])
    ensures data == "Tcp" + ":" + Spaced(["120000", "-1"])
  {
    SpacedTwo("RtoMax", "MaxConn");
    SpacedTwo("120000", "-1");
  }

  lemma MaxConnNumerals()
    ensures !Numeral("RtoMax") && !Numeral("-1") && Unsigned("120000", 120000)
  {
    assert "RtoMax"[0] == 'R' && "-1"[0] == '-';
    assert Positional("0", 12000) == Positional("", 120000) == 120000;
    assert Positional("00", 1200) == Positional("0", 12000);
    assert Positional("000", 120) == Positional("00", 1200);
    assert Positional("0000", 12) == Positional("000", 120);
    assert Positional("20000", 1) == Positional("0000", 12);
    assert Positional("120000", 0) == Positional("20000", 1);
  }

  lemma MaxConnOverlay(names: seq<string>, values: seq<string>)
    requires names == ["RtoMax", "MaxConn"] && values == ["120000", "-1"]
    ensures Overlay(map[], names, values) == map["RtoMax" := 120000]
  {
    MaxConnNumerals();
    ParseUintMeaning("120000");
    ParseUintMeaning("-1");
    assert Front(names) == ["RtoMax"] && Front(values) == ["120000"];
    assert Front(Front(names)) == [] && Front(Front(values)) == [];
    assert Overlay(map[], [], []) == map[];
  }

  lemma HeaderThenData(proto: string, names: seq<string>, values: seq<string>)
    requires |names| == |values|
    ensures TablesOf([Header(proto, names), Data(proto, values)]) == map[proto := Overlay(map[], names, values)]
  {
    var header := Header(proto, names);
    assert Front([header]) == [] && Front([header, Data(proto, values)]) == [header];
    assert TablesOf([header]) == map[];
    assert LatestHeader([header], proto) == Some(names);
    assert GetOr(TablesOf([header]), proto, map[]) == map[];
  }

  lemma MaxConnWords()
    ensures IsWord("RtoMax") && IsWord("MaxConn") && IsWord("120000") && IsWord("-1")
  {
  }

  lemma MaxConnClassified(header: string, data: string)
    requires header == "Tcp: RtoMax MaxConn" && data == "Tcp: 120000 -1"
    ensures Classify(header) == Header("Tcp", ["RtoMax", "MaxConn"])
    ensures Classify(data) == Data("Tcp", ["120000", "-1"])
  {
    MaxConnLines(header, data);
    MaxConnNumerals();
    MaxConnWords();
    ClassifyPrinted("Tcp", ["RtoMax", "MaxConn"]);
    ClassifyPrinted("Tcp", ["120000", "-1"]);
  }

  lemma TwoLines(header: string, data: string, h: Line, d: Line)
    requires Classify(header) == h && Classify(data) == d && h != Blank && d != Blank
    ensures Spec(ClassifyAll([header, data])) == Parsed(TablesOf([h, d]))
  {
    assert ClassifyAll([header, data]) == [h, d];
  }

  /** Tcp's MaxConn is -1 where there is no limit. That is no unsigned numeral, so the table has no MaxConn. */
  lemma ANegativeValueIsSkipped(header: string, data: string)
    requires header == "Tcp: RtoMax MaxConn" && data == "Tcp: 120000 -1"
    ensures Spec(ClassifyAll([header, data])) == Parsed(map["Tcp" := map["RtoMax" := 120000]])
  {
    var names, values := ["RtoMax", "MaxConn"], ["120000", "-1"];
    MaxConnClassified(header, data);
    MaxConnOverlay(names, values);
    HeaderThenData("Tcp", names, values);
    TwoLines(header, data, Header("Tcp", names), Data("Tcp", values));
  }
}
