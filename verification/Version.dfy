/** Version strings and their comparison (internal/version/version.go). */
module Version {
  import opened Prelude
  import opened Decimal
  import opened Words

  datatype Semver = Semver(maj: int, min: int, pat: int)

  // ---- parseSemver

  /** strings.TrimPrefix(s, "v") */
  function WithoutV(s: string): string
  {
    if s != "" && s[0] == 'v' then s[1..] else s
  }

  /** strings.SplitN on one character. */
  function SplitN(s: string, sep: char, n: nat): seq<string>
    requires n > 0
  {
    var i := IndexOf(s, sep);
    if n == 1 || i < 0 then [s] else [s[..i]] + SplitN(s[i + 1..], sep, n - 1)
  }

  function LeadingDigits(s: string): (d: string)
    ensures |d| <= |s| && s[..|d|] == d && AllDigits(d)
    ensures |d| < |s| ==> !IsDigit(s[|d|])
  {
    if s == "" || !IsDigit(s[0]) then ""
    else
      var rest := LeadingDigits(s[1..]);
      assert s[..|rest| + 1] == [s[0]] + s[1..][..|rest|];
      [s[0]] + rest
  }

  function Parse(s: string): Option<Semver>
  {
    var parts := SplitN(WithoutV(s), '.', 3);
    if |parts| != 3 then None
    else
      var maj, min, pat := Atoi(parts[0]), Atoi(parts[1]), Atoi(LeadingDigits(parts[2]));
      if maj == None || min == None || LeadingDigits(parts[2]) == "" || pat == None then None
      else Some(Semver(maj.value, min.value, pat.value))
  }

  /** parseSemver */
  method ParseSemver(s: string) returns (maj: int, min: int, pat: int, ok: bool)
    ensures match Parse(s)
            case Some(v) => ok && Semver(maj, min, pat) == v
            case None => !ok && maj == min == pat == 0
  {
    maj, min, pat, ok := 0, 0, 0, false;
    var parts := SplitN(WithoutV(s), '.', 3);
    if |parts| != 3 {
      return;
    }
    var patStr := parts[2];
    for i := 0 to |parts[2]|
      invariant patStr == parts[2]
      invariant i <= |LeadingDigits(parts[2])|
    {
      if parts[2][i] < '0' || parts[2][i] > '9' {
        patStr := patStr[..i];
        break;
      }
    }
    assert patStr == LeadingDigits(parts[2]);
    var a, b := Atoi(parts[0]), Atoi(parts[1]);
    if a == None || b == None || patStr == "" {
      return;
    }
    var c := Atoi(patStr);
    if c == None {
      return;
    }
    maj, min, pat, ok := a.value, b.value, c.value, true;
  }

  // ---- What the parser accepts

  /** t is a.b.d followed by anything that does not go on with a digit; a and b may have signs. */
  ghost predicate Reads(t: string, a: string, b: string, d: string, rest: string, v: Semver)
  {
    && t == a + "." + b + "." + d + rest
    && '.' !in a && '.' !in b
    && Digits(d) && (rest == "" || !('0' <= rest[0] <= '9'))
    && Signed(a, v.maj) && Signed(b, v.min) && Signed(d, v.pat)
  }

  lemma {:induction false} LeadingDigitsOf(d: string, rest: string)
    requires AllDigits(d) && (rest == "" || !IsDigit(rest[0]))
    ensures LeadingDigits(d + rest) == d
  {
    if d == "" {
      assert d + rest == rest;
    } else {
      LeadingDigitsOf(d[1..], rest);
      assert (d + rest)[1..] == d[1..] + rest;
    }
  }

  lemma SplitThree(a: string, b: string, c: string)
    requires '.' !in a && '.' !in b
    ensures SplitN(a + "." + b + "." + c, '.', 3) == [a, b, c]
  {
    var bc := b + "." + c;
    var s := a + "." + bc;
    assert s == a + "." + b + "." + c;
    IndexOfAfter(a, '.', bc);
    assert s[..|a|] == a && s[|a| + 1..] == bc;
    IndexOfAfter(b, '.', c);
    assert bc[..|b|] == b && bc[|b| + 1..] == c;
    assert SplitN(bc, '.', 2) == [b] + SplitN(c, '.', 1);
  }

  lemma SplitOne(s: string, n: nat)
    requires n > 1 && IndexOf(s, '.') >= 0
    ensures var i := IndexOf(s, '.');
            s == s[..i] + "." + s[i + 1..] && SplitN(s, '.', n) == [s[..i]] + SplitN(s[i + 1..], '.', n - 1)
  {
  }

  lemma SplitThreeBack(s: string)
    requires |SplitN(s, '.', 3)| == 3
    ensures var p := SplitN(s, '.', 3); s == p[0] + "." + p[1] + "." + p[2] && '.' !in p[0] && '.' !in p[1]
  {
    var i := IndexOf(s, '.');
    var r := s[i + 1..];
    SplitOne(s, 3);
    var j := IndexOf(r, '.');
    SplitOne(r, 2);
    assert SplitN(r[j + 1..], '.', 1) == [r[j + 1..]];
    Join(s[..i], r[..j], r[j + 1..]);
  }

  lemma Join(a: string, b: string, c: string)
    ensures a + "." + (b + "." + c) == a + "." + b + "." + c
    ensures [a] + ([b] + [c]) == [a, b, c]
  {
  }

  /** The third part is its leading digits and what follows them. */
  lemma DigitsThenRest(a: string, b: string, c: string)
    ensures var d := LeadingDigits(c);
            a + "." + b + "." + c == a + "." + b + "." + d + c[|d|..]
  {
    var d := LeadingDigits(c);
    assert c == d + c[|d|..];
  }

  lemma ParsedReads(s: string, v: Semver)
    requires Parse(s) == Some(v)
    ensures var p := SplitN(WithoutV(s), '.', 3);
            |p| == 3 && Reads(WithoutV(s), p[0], p[1], LeadingDigits(p[2]), p[2][|LeadingDigits(p[2])|..], v)
  {
    var p := SplitN(WithoutV(s), '.', 3);
    SplitThreeBack(WithoutV(s));
    DigitsThenRest(p[0], p[1], p[2]);
    AtoiMeaning(p[0], v.maj);
    AtoiMeaning(p[1], v.min);
    AtoiMeaning(LeadingDigits(p[2]), v.pat);
    DigitsAre(LeadingDigits(p[2]));
  }

  lemma ReadParses(s: string, a: string, b: string, d: string, rest: string, v: Semver)
    requires Reads(WithoutV(s), a, b, d, rest, v)
    ensures Parse(s) == Some(v)
  {
    assert WithoutV(s) == a + "." + b + "." + (d + rest);
    SplitThree(a, b, d + rest);
    DigitsAre(d);
    LeadingDigitsOf(d, rest);
    AtoiMeaning(a, v.maj);
    AtoiMeaning(b, v.min);
    AtoiMeaning(d, v.pat);
  }

  /**
    The parser accepts exactly the strings that read, after at most one leading v, as three dot-separated numerals
    whose third may be followed by any suffix, and it gives those three numbers.
   */
  lemma ParseMeaning(s: string, v: Semver)
    ensures Parse(s) == Some(v) <==>
              var t := if s != "" && s[0] == 'v' then s[1..] else s;
              exists a: string, b: string, d: string, rest: string :: Reads(t, a, b, d, rest, v)
  {
    if Parse(s) == Some(v) {
      ParsedReads(s, v);
    }
    if a: string, b: string, d: string, rest: string :| Reads(WithoutV(s), a, b, d, rest, v) {
      ReadParses(s, a, b, d, rest, v);
    }
  }

  lemma {:induction false} NoDotInFormat(n: int)
    ensures '.' !in FormatInt(n)
  {
    assert forall c :: c in Format(if n < 0 then -n else n) ==> IsDigit(c);
  }

  function Body(v: Semver, suffix: string): string
  {
    FormatInt(v.maj) + "." + FormatInt(v.min) + "." + FormatInt(v.pat) + suffix
  }

  function Text(v: Semver, withV: bool, suffix: string): string
  {
    if withV then "v" + Body(v, suffix) else Body(v, suffix)
  }

  predicate Fits(v: Semver)
  {
    -TWO63 <= v.maj < TWO63 && -TWO63 <= v.min < TWO63 && 0 <= v.pat < TWO63
  }

  /** Formatting any version whose numbers fit an int, with or without v and with any suffix, parses back to it. */
  lemma FormatThenParse(v: Semver, withV: bool, suffix: string)
    requires Fits(v) && (suffix == "" || !IsDigit(suffix[0]))
    ensures Parse(Text(v, withV, suffix)) == Some(v)
  {
    BodyReads(v, suffix);
    assert WithoutV(Text(v, withV, suffix)) == Body(v, suffix);
    ReadParses(Text(v, withV, suffix), FormatInt(v.maj), FormatInt(v.min), FormatInt(v.pat), suffix, v);
  }

  lemma BodyReads(v: Semver, suffix: string)
    requires Fits(v) && (suffix == "" || !IsDigit(suffix[0]))
    ensures Reads(Body(v, suffix), FormatInt(v.maj), FormatInt(v.min), FormatInt(v.pat), suffix, v)
    ensures Body(v, suffix) != "" && Body(v, suffix)[0] != 'v'
  {
    FormatIsSigned(v.maj);
    FormatIsSigned(v.min);
    FormatIsSigned(v.pat);
    DigitsAre(Format(v.pat));
    NoDotInFormat(v.maj);
    NoDotInFormat(v.min);
    StartsWithoutV(v.maj);
    assert Body(v, suffix)[0] == FormatInt(v.maj)[0];
  }

  lemma FormatIsSigned(n: int)
    requires -TWO63 <= n < TWO63
    ensures Signed(FormatInt(n), n)
  {
    AtoiFormat(n);
    AtoiMeaning(FormatInt(n), n);
  }

  lemma StartsWithoutV(n: int)
    ensures FormatInt(n) != "" && FormatInt(n)[0] != 'v'
  {
    assert n >= 0 ==> IsDigit(Format(n)[0]);
  }

  // ---- Compare

  datatype Status = Unknown | Dev | Current | Outdated

  function Compare(current: string, latest: string): Status
  {
    CompareParsed(Parse(current), Parse(latest))
  }

  /** The switch of Compare. */
  function CompareParsed(c: Option<Semver>, l: Option<Semver>): Status
  {
    if c == None then Dev
    else if l == None then Unknown
    else if l.value.maj > c.value.maj then Outdated
    else if l.value.maj < c.value.maj then Current
    else if l.value.min > c.value.min then Outdated
    else if l.value.min < c.value.min then Current
    else if l.value.pat > c.value.pat then Outdated
    else Current
  }

  /** Lexicographic order. */
  predicate Less(x: seq<int>, y: seq<int>)
    requires |x| == |y|
  {
    x != [] && (x[0] < y[0] || (x[0] == y[0] && Less(x[1..], y[1..])))
  }

  function Numbers(v: Semver): seq<int>
  {
    [v.maj, v.min, v.pat]
  }

  /** Each status exactly when it should be given; a suffix never matters. */
  lemma CompareMeaning(current: string, latest: string)
    ensures var c, l := Parse(current), Parse(latest);
            && (Compare(current, latest) == Dev <==> c == None)
            && (Compare(current, latest) == Unknown <==> c.Some? && l == None)
            && (Compare(current, latest) == Outdated <==>
                  c.Some? && l.Some? && Less(Numbers(c.value), Numbers(l.value)))
            && (Compare(current, latest) == Current <==>
                  c.Some? && l.Some? && !Less(Numbers(c.value), Numbers(l.value)))
  {
    CompareParsedMeaning(Parse(current), Parse(latest));
  }

  lemma CompareParsedMeaning(c: Option<Semver>, l: Option<Semver>)
    ensures var status := CompareParsed(c, l);
            && (status == Dev <==> c == None)
            && (status == Unknown <==> c.Some? && l == None)
            && (status == Outdated <==> c.Some? && l.Some? && Less(Numbers(c.value), Numbers(l.value)))
            && (status == Current <==> c.Some? && l.Some? && !Less(Numbers(c.value), Numbers(l.value)))
  {
    if c.Some? && l.Some? {
      LessIsLexicographic(c.value, l.value);
    }
  }

  lemma LessIsLexicographic(c: Semver, l: Semver)
    ensures Less(Numbers(c), Numbers(l))
            <==> c.maj < l.maj || (c.maj == l.maj && c.min < l.min)
                 || (c.maj == l.maj && c.min == l.min && c.pat < l.pat)
  {
    var x, y := Numbers(c), Numbers(l);
    assert x[1..] == [c.min, c.pat] && y[1..] == [l.min, l.pat];
    assert x[1..][1..] == [c.pat] && y[1..][1..] == [l.pat];
    assert Less([c.pat], [l.pat]) <==> c.pat < l.pat;
  }

  lemma {:induction false} LessOrder(x: seq<int>, y: seq<int>)
    requires |x| == |y|
    ensures !(Less(x, y) && Less(y, x))
    ensures !Less(x, y) && !Less(y, x) <==> x == y
  {
    if x != [] {
      LessOrder(x[1..], y[1..]);
      assert x == [x[0]] + x[1..] && y == [y[0]] + y[1..];
    }
  }

  lemma {:induction false} LessTransitive(x: seq<int>, y: seq<int>, z: seq<int>)
    requires |x| == |y| == |z| && Less(x, y) && Less(y, z)
    ensures Less(x, z)
  {
    if x[0] == y[0] == z[0] {
      LessTransitive(x[1..], y[1..], z[1..]);
    }
  }

  /** Outdated is a strict order on strings that parse, total up to suffixes and the leading v. */
  lemma OutdatedIsAsymmetric(a: string, b: string)
    ensures !(Compare(a, b) == Outdated && Compare(b, a) == Outdated)
  {
    CompareMeaning(a, b);
    CompareMeaning(b, a);
    if Parse(a).Some? && Parse(b).Some? {
      LessOrder(Numbers(Parse(a).value), Numbers(Parse(b).value));
    }
  }

  lemma OutdatedIsTransitive(a: string, b: string, c: string)
    requires Compare(a, b) == Outdated && Compare(b, c) == Outdated
    ensures Compare(a, c) == Outdated
  {
    CompareMeaning(a, b);
    CompareMeaning(b, c);
    CompareMeaning(a, c);
    LessTransitive(Numbers(Parse(a).value), Numbers(Parse(b).value), Numbers(Parse(c).value));
  }

  lemma OutdatedIsTotal(a: string, b: string)
    requires Parse(a).Some? && Parse(b).Some?
    ensures Compare(a, b) == Outdated || Compare(b, a) == Outdated || Parse(a) == Parse(b)
    ensures Parse(a) == Parse(b) ==> Compare(a, b) == Compare(b, a) == Current
  {
    CompareMeaning(a, b);
    CompareMeaning(b, a);
    var x, y := Parse(a).value, Parse(b).value;
    LessOrder(Numbers(x), Numbers(y));
    assert Numbers(x) == Numbers(y) ==> Numbers(x)[0] == Numbers(y)[0] && Numbers(x)[1] == Numbers(y)[1]
                                        && Numbers(x)[2] == Numbers(y)[2];
  }

  /**
    A version-shaped string is compared whatever its suffix says, "-dev" and "-dirty" included: it is never reported
    as a dev build.
   */
  lemma SuffixNeverMatters(v: Semver, suffix: string, latest: string)
    requires Fits(v) && (suffix == "" || !IsDigit(suffix[0]))
    ensures Compare(Text(v, true, suffix), latest) == Compare(Text(v, false, ""), latest) != Dev
  {
    FormatThenParse(v, true, suffix);
    FormatThenParse(v, false, "");
    ComparesByNumbers(Text(v, true, suffix), Text(v, false, ""), latest);
  }

  lemma ComparesByNumbers(a: string, b: string, latest: string)
    requires Parse(a) == Parse(b) && Parse(a).Some?
    ensures Compare(a, latest) == Compare(b, latest) != Dev
  {
  }

  const ZERO: Semver := Semver(0, 0, 0)

  lemma DevText()
    ensures Text(ZERO, true, "-dev") == "v0.0.0-dev"
  {
    assert FormatInt(0) == "0";
    assert "0" + "." + "0" + "." + "0" + "-dev" == "0.0.0-dev";
  }

  /** The dev build is compared as 0.0.0 with whatever the latest version is said to be. */
  lemma DevBuildIsOutdated(latest: string)
    ensures Compare("v0.0.0-dev", latest)
            == match Parse(latest)
               case None => Unknown
               case Some(l) => if Less(Numbers(ZERO), Numbers(l)) then Outdated else Current
  {
    DevText();
    FormatThenParse(ZERO, true, "-dev");
    CompareMeaning("v0.0.0-dev", latest);
  }

  ghost predicate ReadsAs(s: string, v: Semver)
  {
    var t := if s != "" && s[0] == 'v' then s[1..] else s;
    exists a: string, b: string, d: string, rest: string :: Reads(t, a, b, d, rest, v)
  }

  /** The same without the parser: of two strings that read as versions, what they read as decides. */
  lemma CompareReadVersions(current: string, c: Semver, latest: string, l: Semver)
    requires ReadsAs(current, c) && ReadsAs(latest, l)
    ensures Compare(current, latest)
            == if c.maj < l.maj || (c.maj == l.maj && c.min < l.min)
                  || (c.maj == l.maj && c.min == l.min && c.pat < l.pat) then Outdated else Current
  {
    ReadsAsIff(current, c);
    ReadsAsIff(latest, l);
    CompareParsedVersions(current, c, latest, l);
  }

  lemma CompareParsedVersions(current: string, c: Semver, latest: string, l: Semver)
    requires Parse(current) == Some(c) && Parse(latest) == Some(l)
    ensures Compare(current, latest)
            == if c.maj < l.maj || (c.maj == l.maj && c.min < l.min)
                  || (c.maj == l.maj && c.min == l.min && c.pat < l.pat) then Outdated else Current
  {
    CompareParsedMeaning(Some(c), Some(l));
    LessIsLexicographic(c, l);
  }

  lemma ReadsAsIff(s: string, v: Semver)
    ensures Parse(s) == Some(v) <==> ReadsAs(s, v)
  {
    ParseMeaning(s, v);
  }

  /** A running version that does not read as one is a dev build. */
  lemma DevIff(current: string, latest: string)
    ensures Compare(current, latest) == Dev <==> forall v :: !ReadsAs(current, v)
  {
    ParsesIff(current);
    CompareParsedMeaning(Parse(current), Parse(latest));
  }

  /** Any other is of unknown standing exactly against a latest version that does not read as one. */
  lemma UnknownIff(current: string, latest: string)
    ensures Compare(current, latest) == Unknown
            <==> Compare(current, latest) != Dev && forall v :: !ReadsAs(latest, v)
  {
    ParsesIff(latest);
    CompareParsedMeaning(Parse(current), Parse(latest));
  }

  lemma ParsesIff(s: string)
    ensures Parse(s) == None <==> forall v :: !ReadsAs(s, v)
  {
    if Parse(s) == None {
      NoneReads(s);
    } else {
      ReadsAsIff(s, Parse(s).value);
    }
  }

  lemma NoneReads(s: string)
    requires Parse(s) == None
    ensures forall v :: !ReadsAs(s, v)
  {
    forall v
      ensures !ReadsAs(s, v)
    {
      ReadsAsIff(s, v);
    }
  }
}
