/** The URL helpers of src/helpers/url.ts: the relaxed query encoder, the absolute-URL
    test, the base-URL join and the query-string builder. */
module Url {
  import opened Js
  import opened UriEncoding

  // ---------------------------------------------------------------------------
  // encode

  /** The `.replace` calls `encode` chains after `encodeURIComponent`, in order: the
      spellings each regular expression matches and the text that replaces them. */
  const Replacements: seq<(set<string>, string)> := [
    ({"%40"}, "@"),
    ({"%3A", "%3a"}, ":"),
    ({"%24"}, "$"),
    ({"%2C", "%2c"}, ","),
    ({"%20"}, "+"),
    ({"%5B", "%5b"}, "["),
    ({"%5D", "%5d"}, "]")
  ]

  /** Every escape `encode` undoes, in either case of its hexadecimal letter. */
  const UndoneEscapes: set<string> :=
    {"%40", "%3A", "%3a", "%24", "%2C", "%2c", "%20", "%5B", "%5b", "%5D", "%5d"}

  /** `s.replace(p1, r1).replace(p2, r2)...` */
  function ReplaceEach(s: string, steps: seq<(set<string>, string)>): string
    decreases |steps|
  {
    if steps == [] then s else ReplaceEach(ReplaceAll(s, steps[0].0, steps[0].1), steps[1..])
  }

  /** `encode(val)`: `encodeURIComponent` with `@ : $ , [ ]` put back and space written `+`.
      It agrees with its character-by-character reference definition. */
  function Encode(val: string): (r: string)
    ensures r == RelaxedEncode(val)
  {
    ReplacementsRelax(val);
    ReplaceEach(EncodeURIComponent(val), Replacements)
  }

  /** Reference definition of `encode`, one character at a time. */
  function RelaxedChar(c: char): string
  {
    if c in "@:$,[]" then [c]
    else if c == ' ' then "+"
    else EncodeChar(c)
  }

  function RelaxedEncode(s: string): string
  {
    if s == [] then "" else RelaxedChar(s[0]) + RelaxedEncode(s[1..])
  }

  predicate ValidSteps(steps: seq<(set<string>, string)>)
  {
    forall i :: 0 <= i < |steps| ==> EscapePatterns(steps[i].0) && '%' !in steps[i].1
  }

  function PatternsOf(steps: seq<(set<string>, string)>): set<string>
    decreases |steps|
  {
    if steps == [] then {} else steps[0].0 + PatternsOf(steps[1..])
  }

  lemma ReplacementsValid()
    ensures ValidSteps(Replacements)
  {
  }

  lemma UndoneEscapesArePatterns()
    ensures EscapePatterns(UndoneEscapes)
  {
  }

  lemma ReplacementsPatterns()
    ensures PatternsOf(Replacements) == UndoneEscapes
  {
    assert PatternsOf(Replacements[6..]) == {"%5D", "%5d"};
    assert PatternsOf(Replacements[5..]) == {"%5B", "%5b", "%5D", "%5d"};
    assert PatternsOf(Replacements[4..]) == {"%20", "%5B", "%5b", "%5D", "%5d"};
    assert PatternsOf(Replacements[3..]) == {"%2C", "%2c", "%20", "%5B", "%5b", "%5D", "%5d"};
    assert PatternsOf(Replacements[2..]) == {"%24", "%2C", "%2c", "%20", "%5B", "%5b", "%5D", "%5d"};
    assert PatternsOf(Replacements[1..]) == {"%3A", "%3a", "%24", "%2C", "%2c", "%20", "%5B", "%5b", "%5D", "%5d"};
  }

  lemma {:induction false} ReplaceEachAppend(a: string, b: string, steps: seq<(set<string>, string)>)
    requires ValidSteps(steps) && Escaped(a, {})
    ensures ReplaceEach(a + b, steps) == ReplaceEach(a, steps) + ReplaceEach(b, steps)
    decreases |steps|
  {
    if steps != [] {
      var (pats, rep) := steps[0];
      ReplaceAppend(a, b, pats, rep);
      NoPercentEscaped(rep, {});
      ReplaceKeepsEscaped(a, pats, rep, {});
      assert ValidSteps(steps[1..]) by {
        forall i | 0 <= i < |steps[1..]| ensures EscapePatterns(steps[1..][i].0) && '%' !in steps[1..][i].1 {
          assert steps[1..][i] == steps[i + 1];
        }
      }
      ReplaceEachAppend(ReplaceAll(a, pats, rep), ReplaceAll(b, pats, rep), steps[1..]);
    }
  }

  lemma {:induction false} ReplaceEachNothing(s: string, steps: seq<(set<string>, string)>)
    requires ValidSteps(steps) && Escaped(s, PatternsOf(steps))
    ensures ReplaceEach(s, steps) == s
    decreases |steps|
  {
    if steps != [] {
      var (pats, rep) := steps[0];
      EscapedWeaken(s, PatternsOf(steps), pats);
      ReplaceNothing(s, pats, rep);
      EscapedWeaken(s, PatternsOf(steps), PatternsOf(steps[1..]));
      assert ValidSteps(steps[1..]) by {
        forall i | 0 <= i < |steps[1..]| ensures EscapePatterns(steps[1..][i].0) && '%' !in steps[1..][i].1 {
          assert steps[1..][i] == steps[i + 1];
        }
      }
      ReplaceEachNothing(s, steps[1..]);
    }
  }

  /** A lone escape is turned into the replacement of the first step that matches it. */
  lemma {:induction false} ReplaceEachToken(t: string, steps: seq<(set<string>, string)>, k: nat)
    requires ValidSteps(steps) && |t| == 3 && t[0] == '%' && IsHex(t[1]) && IsHex(t[2])
    requires k < |steps| && t in steps[k].0
    requires forall j :: 0 <= j < k ==> t !in steps[j].0
    ensures ReplaceEach(t, steps) == steps[k].1
    decreases k
  {
    var (pats, rep) := steps[0];
    ReplaceToken(t, pats, rep);
    assert ValidSteps(steps[1..]) by {
      forall i | 0 <= i < |steps[1..]| ensures EscapePatterns(steps[1..][i].0) && '%' !in steps[1..][i].1 {
        assert steps[1..][i] == steps[i + 1];
      }
    }
    if k == 0 {
      NoPercentEscaped(rep, PatternsOf(steps[1..]));
      ReplaceEachNothing(rep, steps[1..]);
    } else {
      ReplaceEachToken(t, steps[1..], k - 1);
    }
  }

  lemma {:induction false} EscapeBytesEscaped(bs: seq<nat>, bad: set<string>)
    requires forall i :: 0 <= i < |bs| ==> bs[i] < 256 && Escape(bs[i]) !in bad
    ensures Escaped(EscapeBytes(bs), bad)
  {
    if bs != [] {
      EscapeBytesEscaped(bs[1..], bad);
      var e := Escape(bs[0]);
      assert e[..3] == e && e[3..] == [];
      EscapedAppend(e, EscapeBytes(bs[1..]), bad);
    }
  }

  /** The only octets whose escapes `encode` undoes are those of `@ : $ , [ ]` and space. */
  lemma EscapeKept(b: nat)
    requires b < 256 && b !in {0x40, 0x3A, 0x24, 0x2C, 0x20, 0x5B, 0x5D}
    ensures Escape(b) !in UndoneEscapes
  {
    var e := Escape(b);
    assert IsUpperHex(e[2]);
    if e in {"%40", "%3A", "%24", "%2C", "%20", "%5B", "%5D"} {
      var u: nat :| u in {0x40, 0x3A, 0x24, 0x2C, 0x20, 0x5B, 0x5D} && Escape(u) == e;
      EscapeInjective(b, u);
    }
  }

  /** An ASCII character outside the unreserved set becomes one escape. */
  lemma EncodeAscii(c: char)
    requires (c as int) < 0x80 && !Unreserved(c)
    ensures EncodeChar(c) == Escape(c as int)
  {
    assert Utf8(c) == [c as int];
    assert EscapeBytes([c as int]) == Escape(c as int) + EscapeBytes([]);
  }

  /** Every character `encode` does not treat specially is percent-encoded as usual,
      and none of its escapes is one `encode` would undo. */
  lemma EncodeCharKept(c: char, bad: set<string>)
    requires c !in "@:$,[] " && bad <= UndoneEscapes
    ensures Escaped(EncodeChar(c), bad)
  {
    if Unreserved(c) {
      NoPercentEscaped([c], bad);
    } else {
      var bs := Utf8(c);
      forall i | 0 <= i < |bs| ensures Escape(bs[i]) !in bad {
        assert bs[i] !in {0x40, 0x3A, 0x24, 0x2C, 0x20, 0x5B, 0x5D};
        EscapeKept(bs[i]);
      }
      EscapeBytesEscaped(bs, bad);
    }
  }

  /** `encode` turns a lone escape of `@ : $ , [ ]` or space back into one character. */
  lemma {:induction false} UndoEscape(t: string, k: nat)
    requires k < 7 && t == ["%40", "%3A", "%24", "%2C", "%20", "%5B", "%5D"][k]
    ensures ReplaceEach(t, Replacements) == Replacements[k].1
  {
    ReplacementsValid();
    if k == 0 {
    } else if k == 1 {
      assert t !in Replacements[0].0;
    } else if k == 2 {
      assert t !in Replacements[0].0 && t !in Replacements[1].0;
    } else if k == 3 {
      assert t !in Replacements[0].0 && t !in Replacements[1].0 && t !in Replacements[2].0;
    } else if k == 4 {
      assert t !in Replacements[0].0 && t !in Replacements[1].0 && t !in Replacements[2].0;
      assert t !in Replacements[3].0;
    } else if k == 5 {
      assert t !in Replacements[0].0 && t !in Replacements[1].0 && t !in Replacements[2].0;
      assert t !in Replacements[3].0 && t !in Replacements[4].0;
    } else {
      assert t !in Replacements[0].0 && t !in Replacements[1].0 && t !in Replacements[2].0;
      assert t !in Replacements[3].0 && t !in Replacements[4].0 && t !in Replacements[5].0;
    }
    ReplaceEachToken(t, Replacements, k);
  }

  /** The characters `encode` puts back, in the order of `Replacements`. */
  const Restored: string := "@:$, []"

  lemma EncodeSpecialAt(k: nat)
    requires k < 7
    ensures ReplaceEach(EncodeChar(Restored[k]), Replacements) == RelaxedChar(Restored[k])
  {
    var c := Restored[k];
    var t := Escape(c as int);
    assert EncodeChar(c) == t by {
      EncodeAscii(c);
    }
    assert t == ["%40", "%3A", "%24", "%2C", "%20", "%5B", "%5D"][k] by {
      RestoredEscape(k);
    }
    UndoEscape(t, k);
    RestoredRelaxed(k);
  }

  /** The reference encoding of each character `encode` puts back is its replacement. */
  lemma RestoredRelaxed(k: nat)
    requires k < 7
    ensures RelaxedChar(Restored[k]) == Replacements[k].1
  {
    if k == 4 {
      assert Restored[k] == ' ';
    } else {
      assert Restored[k] in "@:$,[]";
    }
  }

  /** The escape of each character `encode` puts back. */
  lemma RestoredEscape(k: nat)
    requires k < 7
    ensures Escape(Restored[k] as int) == ["%40", "%3A", "%24", "%2C", "%20", "%5B", "%5D"][k]
  {
    if k == 0 {
      assert Restored[k] as int == 0x40;
    } else if k == 1 {
      assert Restored[k] as int == 0x3A;
    } else if k == 2 {
      assert Restored[k] as int == 0x24;
    } else if k == 3 {
      assert Restored[k] as int == 0x2C;
    } else if k == 4 {
      assert Restored[k] as int == 0x20;
    } else if k == 5 {
      assert Restored[k] as int == 0x5B;
    } else {
      assert Restored[k] as int == 0x5D;
    }
  }

  lemma EncodeSpecialRelaxed(c: char)
    requires c in "@:$,[] "
    ensures ReplaceEach(EncodeChar(c), Replacements) == RelaxedChar(c)
  {
    assert c in Restored;
    var k :| 0 <= k < 7 && Restored[k] == c;
    EncodeSpecialAt(k);
  }

  /** Each character's own contribution to `encode(val)`. */
  lemma EncodeCharRelaxed(c: char)
    ensures ReplaceEach(EncodeChar(c), Replacements) == RelaxedChar(c)
  {
    if c in "@:$,[] " {
      EncodeSpecialRelaxed(c);
    } else {
      ReplacementsValid();
      ReplacementsPatterns();
      EncodeCharKept(c, UndoneEscapes);
      ReplaceEachNothing(EncodeChar(c), Replacements);
    }
  }

  lemma EncodeCharEscaped(c: char)
    ensures Escaped(EncodeChar(c), {})
  {
    if Unreserved(c) {
      NoPercentEscaped([c], {});
    } else {
      EscapeBytesEscaped(Utf8(c), {});
    }
  }

  /** The replacement chain turns the output of `encodeURIComponent` into the reference
      encoding, character by character. */
  lemma {:induction false} ReplacementsRelax(s: string)
    ensures ReplaceEach(EncodeURIComponent(s), Replacements) == RelaxedEncode(s)
  {
    if s == [] {
      assert EncodeURIComponent(s) == "";
      ReplacementsValid();
      ReplacementsPatterns();
      ReplaceEachNothing("", Replacements);
    } else {
      ReplacementsValid();
      EncodeCharEscaped(s[0]);
      ReplaceEachAppend(EncodeChar(s[0]), EncodeURIComponent(s[1..]), Replacements);
      EncodeCharRelaxed(s[0]);
      ReplacementsRelax(s[1..]);
    }
  }

  lemma {:induction false} RelaxedEncodeEscaped(s: string)
    ensures Escaped(RelaxedEncode(s), UndoneEscapes)
  {
    if s != [] {
      var c := s[0];
      if c in "@:$,[]" || c == ' ' {
        NoPercentEscaped(RelaxedChar(c), UndoneEscapes);
      } else {
        EncodeCharKept(c, UndoneEscapes);
      }
      RelaxedEncodeEscaped(s[1..]);
      EscapedAppend(RelaxedChar(c), RelaxedEncode(s[1..]), UndoneEscapes);
    }
  }

  /** The output of `encode` never contains `%40`, `%3A`, `%24`, `%2C`, `%20`, `%5B` or `%5D`
      (in either case), anywhere. */
  lemma EncodeHasNoUndoneEscape(s: string)
    ensures forall i: nat :: i + 3 <= |Encode(s)| ==> Window(Encode(s), i) !in UndoneEscapes
  {
    RelaxedEncodeEscaped(s);
    UndoneEscapesArePatterns();
    EscapedNoneAt(RelaxedEncode(s), UndoneEscapes);
  }

  // ---------------------------------------------------------------------------
  // isAbsoluteURL

  predicate IsAsciiLetter(c: char)
  {
    ('a' <= c <= 'z') || ('A' <= c <= 'Z')
  }

  /** A character that may follow the first letter of a scheme. */
  predicate IsSchemeChar(c: char)
  {
    IsAsciiLetter(c) || ('0' <= c <= '9') || c == '+' || c == '-' || c == '.'
  }

  /** The end of the run of scheme characters of u that starts at i. */
  function SchemeEnd(u: string, i: nat): (k: nat)
    requires i <= |u|
    ensures i <= k <= |u|
    ensures forall j :: i <= j < k ==> IsSchemeChar(u[j])
    ensures k < |u| ==> !IsSchemeChar(u[k])
    decreases |u| - i
  {
    if i == |u| || !IsSchemeChar(u[i]) then i else SchemeEnd(u, i + 1)
  }

  /** `isAbsoluteURL(url)`: a scheme and "//", or "//" alone (a protocol-relative URL).
      A URL starting with "//" is absolute; an absolute URL starts with "//" or with a
      letter, and has a ':' and then "//" after its first character. */
  predicate IsAbsoluteURL(u: string): (b: bool)
    ensures |u| >= 2 && u[0] == '/' && u[1] == '/' ==> b
    ensures b ==> |u| >= 2 && ((u[0] == '/' && u[1] == '/') || (IsAsciiLetter(u[0]) && ':' in u[1..]))
  {
    (|u| >= 2 && u[0] == '/' && u[1] == '/')
    || (|u| > 0 && IsAsciiLetter(u[0]) &&
        var k := SchemeEnd(u, 1);
        k + 3 <= |u| && u[k] == ':' && u[k + 1] == '/' && u[k + 2] == '/')
  }

  /** The regular expression, read as a statement about a prefix of u: an optional
      `letter (letter | digit | + | - | .)* :` followed by "//". */
  ghost predicate MatchesAbsolutePattern(u: string)
  {
    (|u| >= 2 && u[..2] == "//")
    || exists k: nat {:trigger SchemeRun(u, k)} ::
         1 <= k && k + 3 <= |u| && IsAsciiLetter(u[0]) && SchemeRun(u, k)
         && u[k] == ':' && u[k + 1] == '/' && u[k + 2] == '/'
  }

  /** Every character of u from position 1 up to k can belong to a scheme. */
  ghost predicate SchemeRun(u: string, k: nat)
  {
    k <= |u| && forall j :: 1 <= j < k ==> IsSchemeChar(u[j])
  }

  /** The scan stops at the first character that cannot belong to a scheme. */
  lemma {:induction false} SchemeEndIsFirst(u: string, i: nat, k: nat)
    requires i <= k < |u|
    requires forall j :: i <= j < k ==> IsSchemeChar(u[j])
    requires !IsSchemeChar(u[k])
    ensures SchemeEnd(u, i) == k
    decreases k - i
  {
    if i < k {
      SchemeEndIsFirst(u, i + 1, k);
    }
  }

  /** The scan agrees with the regular expression, letters matching in either case: a
      scheme followed by ':' ends where the scan of scheme characters stops. */
  lemma IsAbsoluteURLMatches(u: string)
    ensures IsAbsoluteURL(u) <==> MatchesAbsolutePattern(u)
  {
    if |u| > 0 {
      var e := SchemeEnd(u, 1);
      assert SchemeRun(u, e);
      forall k: nat | 1 <= k < |u| && SchemeRun(u, k) && u[k] == ':'
        ensures k == e
      {
        SchemeEndIsFirst(u, 1, k);
      }
    }
  }

  // ---------------------------------------------------------------------------
  // combineURL

  /** The text without the run of slashes it ends with. */
  function TrimTrailingSlashes(s: string): (r: string)
    ensures |r| <= |s| && r == s[..|r|]
    ensures forall j :: |r| <= j < |s| ==> s[j] == '/'
    ensures r == [] || r[|r| - 1] != '/'
    decreases |s|
  {
    if s != [] && s[|s| - 1] == '/' then TrimTrailingSlashes(s[..|s| - 1]) else s
  }

  /** The text without the run of slashes it starts with. */
  function TrimLeadingSlashes(s: string): (r: string)
    ensures |r| <= |s| && r == s[|s| - |r|..]
    ensures forall j :: 0 <= j < |s| - |r| ==> s[j] == '/'
    ensures r == [] || r[0] != '/'
    decreases |s|
  {
    if s != [] && s[0] == '/' then TrimLeadingSlashes(s[1..]) else s
  }

  /** `combineURL(baseURL, relativeURL)`; an absent relative URL is None. An absent or
      empty (falsy) relative URL gives the base as it is. */
  function CombineURL(baseURL: string, relativeURL: Option<string>): (r: string)
    ensures !Given(relativeURL) ==> r == baseURL
    ensures Given(relativeURL) ==>
              var i := |TrimTrailingSlashes(baseURL)|;
              i < |r| && r[..i] == baseURL[..i] && (i == 0 || r[i - 1] != '/')
              && r[i] == '/' && (i + 1 == |r| || r[i + 1] != '/')
  {
    if Given(relativeURL) then
      TrimTrailingSlashes(baseURL) + "/" + TrimLeadingSlashes(relativeURL.value)
    else baseURL
  }

  function Slashes(n: nat): (r: string)
    ensures |r| == n && forall j :: 0 <= j < n ==> r[j] == '/'
  {
    seq(n, _ => '/')
  }

  /** Trimming removes exactly the slashes appended to a base that does not end in one. */
  lemma {:induction false} TrimTrailingExactly(b: string, m: nat)
    requires b == [] || b[|b| - 1] != '/'
    ensures TrimTrailingSlashes(b + Slashes(m)) == b
  {
    var s := b + Slashes(m);
    if m == 0 {
      assert s == b;
    } else {
      assert s[|s| - 1] == '/';
      assert s[..|s| - 1] == b + Slashes(m - 1);
      TrimTrailingExactly(b, m - 1);
    }
  }

  /** Trimming removes exactly the slashes prepended to a path that does not start with one. */
  lemma {:induction false} TrimLeadingExactly(r: string, n: nat)
    requires r == [] || r[0] != '/'
    ensures TrimLeadingSlashes(Slashes(n) + r) == r
  {
    var s := Slashes(n) + r;
    if n == 0 {
      assert s == r;
    } else {
      assert s[0] == '/';
      assert s[1..] == Slashes(n - 1) + r;
      TrimLeadingExactly(r, n - 1);
    }
  }

  /** However many slashes end the base URL or start the relative one, exactly one
      separates them: `combineURL("http://a/", "/b") == combineURL("http://a", "b")`, and
      a relative URL of slashes only leaves one: `combineURL("a", "/") == "a/"`. */
  lemma CombineURLSlashes(b: string, r: string, m: nat, n: nat)
    requires b == [] || b[|b| - 1] != '/'
    requires r == [] || r[0] != '/'
    ensures n > 0 || r != [] ==> CombineURL(b + Slashes(m), Some(Slashes(n) + r)) == b + "/" + r
    ensures r != [] ==> CombineURL(b, Some(r)) == b + "/" + r
  {
    var rel := Slashes(n) + r;
    assert |rel| == n + |r|;
    TrimTrailingExactly(b, m);
    TrimLeadingExactly(r, n);
    TrimTrailingExactly(b, 0);
    TrimLeadingExactly(r, 0);
    assert b + Slashes(0) == b;
    assert Slashes(0) + r == r;
  }

  // ---------------------------------------------------------------------------
  // buildURL

  /** `s.indexOf(c)`: the first position of c, or -1. */
  function IndexOf(s: string, c: char): (i: int)
    ensures -1 <= i < |s|
    ensures i == -1 <==> c !in s
    ensures i >= 0 ==> s[i] == c && c !in s[..i]
    decreases |s|
  {
    if s == [] then -1
    else if s[0] == c then 0
    else
      var j := IndexOf(s[1..], c);
      assert s == [s[0]] + s[1..];
      if j == -1 then -1
      else
        assert s[..j + 1] == [s[0]] + s[1..][..j];
        j + 1
  }

  /** The properties `Object.keys(params).forEach` visits, with `params[key]`: the own
      properties of a plain object, the indices of an array or of a string, and nothing
      for any other value. */
  function OwnEntries(params: JsValue): (r: seq<(string, JsValue)>)
    ensures params.Obj? ==> r == params.fields
    ensures params.Arr? ==> |r| == |params.elems| && forall i :: 0 <= i < |r| ==> r[i].1 == params.elems[i]
    ensures params.Str? ==> |r| == |params.s| && forall i :: 0 <= i < |r| ==> r[i].1 == Str([params.s[i]])
    ensures params.Arr? || params.Str? ==> DistinctKeys(r) && forall i :: 0 <= i < |r| ==> r[i].0 == NatToString(i)
    ensures !params.Obj? && !params.Arr? && !params.Str? ==> r == []
  {
    match params
    case Obj(fields) => fields
    case Arr(es) =>
      var r := seq(|es|, i requires 0 <= i < |es| => (NatToString(i), es[i]));
      IndexKeys(r);
      r
    case Str(s) =>
      var r := seq(|s|, i requires 0 <= i < |s| => (NatToString(i), Str([s[i]])));
      IndexKeys(r);
      r
    case _ => []
  }

  /** The index keys of an array or string, the decimal texts of the positions, are
      all distinct. */
  lemma IndexKeys(r: seq<(string, JsValue)>)
    requires forall i :: 0 <= i < |r| ==> r[i].0 == NatToString(i)
    ensures DistinctKeys(r)
  {
    forall i, j | 0 <= i < j < |r| ensures r[i].0 != r[j].0 {
      if r[i].0 == r[j].0 {
        NatToStringInjective(i, j);
      }
    }
  }

  /** A Date is sent as its ISO text and a plain object as its JSON text; every other
      value as itself. */
  function Prepared(h: Host, v: JsValue): (r: JsValue)
    ensures !r.Date? && !r.Obj?
    ensures v.Date? || v.Obj? ==> r.Str?
    ensures !v.Date? && !v.Obj? ==> r == v
  {
    if v.Date? then Str(h.toISOString(v.time))
    else if v.Obj? then Str(h.jsonStringify(v))
    else v
  }

  /** One `key=value` pair of the query string. */
  function Part(h: Host, key: string, v: JsValue): string
  {
    Encode(key) + "=" + Encode(ToJsString(h, Prepared(h, v)))
  }

  /** `f` applied to each element of `xs`, in order. */
  function Map<T, U>(f: T -> U, xs: seq<T>): (r: seq<U>)
    ensures |r| == |xs| && forall i :: 0 <= i < |xs| ==> r[i] == f(xs[i])
  {
    seq(|xs|, i requires 0 <= i < |xs| => f(xs[i]))
  }

  lemma MapSnoc<T, U>(f: T -> U, xs: seq<T>, j: nat)
    requires j < |xs|
    ensures Map(f, xs[..j + 1]) == Map(f, xs[..j]) + [f(xs[j])]
  {
    var a, c := Map(f, xs[..j + 1]), Map(f, xs[..j]);
    forall i | 0 <= i < j + 1 ensures a[i] == (c + [f(xs[j])])[i] {
      if i < j {
        assert xs[..j + 1][i] == xs[..j][i];
      }
    }
  }

  /** The pair of `key` with one value. */
  function PairWith(h: Host, key: string): JsValue -> string
  {
    v => Part(h, key, v)
  }

  /** The pairs of one key whose values are `values`, in their order. */
  function ValueParts(h: Host, key: string, values: seq<JsValue>): (r: seq<string>)
    ensures |r| == |values| && forall i :: 0 <= i < |values| ==> r[i] == Part(h, key, values[i])
  {
    Map(PairWith(h, key), values)
  }

  /** The pairs one property contributes: none for null or undefined, one per element
      under `key[]` for an array, one otherwise. */
  function EntryParts(h: Host, key: string, val: JsValue): (r: seq<string>)
    ensures val.Null? || val.Undefined? ==> r == []
    ensures val.Arr? ==> |r| == |val.elems|
    ensures !val.Arr? && !val.Null? && !val.Undefined? ==> |r| == 1
    ensures forall i :: 0 <= i < |r| ==> IsPair(r[i])
  {
    ValuePartsArePairs(h, key + "[]", if val.Arr? then val.elems else []);
    ValuePartsArePairs(h, key, [val]);
    if val.Null? || val.Undefined? then []
    else if val.Arr? then ValueParts(h, key + "[]", val.elems)
    else ValueParts(h, key, [val])
  }

  /** Every pair of one key is a query pair. */
  lemma ValuePartsArePairs(h: Host, key: string, values: seq<JsValue>)
    ensures forall i :: 0 <= i < |values| ==> IsPair(ValueParts(h, key, values)[i])
  {
    forall i | 0 <= i < |values| ensures IsPair(ValueParts(h, key, values)[i]) {
      PartSplits(h, key, values[i]);
    }
  }

  /** The texts `f` gives for the elements of `xs`, one list after the other. */
  function Flatten<T>(f: T -> seq<string>, xs: seq<T>): seq<string>
  {
    if xs == [] then [] else Flatten(f, xs[..|xs| - 1]) + f(xs[|xs| - 1])
  }

  /** The pairs one `(key, value)` property contributes. */
  function EntryPairs(h: Host): ((string, JsValue)) -> seq<string>
  {
    (e: (string, JsValue)) => EntryParts(h, e.0, e.1)
  }

  /** The `parts` array after visiting `entries` in order. */
  function Parts(h: Host, entries: seq<(string, JsValue)>): seq<string>
  {
    Flatten(EntryPairs(h), entries)
  }

  /** The query text: the serializer's output when one is given, the text of a
      URLSearchParams object, or the built-in pairs joined with '&'. */
  function SerializedParams(h: Host, params: JsValue, paramsSerializer: Option<JsValue -> string>): (r: string)
    ensures paramsSerializer.Some? ==> r == paramsSerializer.value(params)
    ensures paramsSerializer.None? && params.SearchParams? ==> r == params.query
    ensures paramsSerializer.None? && !params.SearchParams? ==> r == Join(Parts(h, OwnEntries(params)), "&")
  {
    if paramsSerializer.Some? then paramsSerializer.value(params)
    else if params.SearchParams? then params.query
    else Join(Parts(h, OwnEntries(params)), "&")
  }

  /** The URL without its fragment: everything before the first '#'. */
  function WithoutFragment(url: string): (b: string)
    ensures |b| <= |url| && b == url[..|b|]
    ensures '#' !in b
    ensures |b| < |url| ==> url[|b|] == '#'
  {
    var m := IndexOf(url, '#');
    if m == -1 then url else url[..m]
  }

  /** What `buildURL(url, params, paramsSerializer)` returns: the URL untouched when the
      params are falsy or serialise to nothing, fragment and all; otherwise the URL
      without its fragment, then '?' if that has none yet (else '&'), then the query. */
  function BuiltURL(h: Host, url: string, params: JsValue, paramsSerializer: Option<JsValue -> string>): (r: string)
    ensures !Truthy(params) ==> r == url
    ensures Truthy(params) && SerializedParams(h, params, paramsSerializer) == "" ==> r == url
    ensures Truthy(params) && SerializedParams(h, params, paramsSerializer) != "" ==>
              r == WithoutFragment(url) + (if '?' in WithoutFragment(url) then "&" else "?")
                   + SerializedParams(h, params, paramsSerializer)
  {
    if !Truthy(params) then url
    else
      var sp := SerializedParams(h, params, paramsSerializer);
      if sp == "" then url
      else
        var base := WithoutFragment(url);
        base + (if IndexOf(base, '?') == -1 then "?" else "&") + sp
  }

  lemma ValuePartsSnoc(h: Host, key: string, values: seq<JsValue>, j: nat)
    requires j < |values|
    ensures ValueParts(h, key, values[..j + 1]) == ValueParts(h, key, values[..j]) + [Part(h, key, values[j])]
  {
    MapSnoc(PairWith(h, key), values, j);
  }

  /** The body of the `forEach` over the keys: nothing for a null or undefined value,
      otherwise the pairs of its values (the elements of an array, under the key with
      `[]` appended) are pushed onto `parts`. */
  method PushEntry(h: Host, parts: seq<string>, key: string, val: JsValue) returns (parts': seq<string>)
    ensures parts' == parts + EntryParts(h, key, val)
  {
    if val.Null? || val.Undefined? {
      assert parts + [] == parts;
      return parts;
    }
    if val.Arr? {
      parts' := PushValues(h, parts, key + "[]", val.elems);
    } else {
      parts' := PushValues(h, parts, key, [val]);
    }
  }

  /** The inner `values.forEach`: one `key=value` pair per value, in order, a Date
      written as its ISO text and a plain object as its JSON text. */
  method PushValues(h: Host, parts: seq<string>, key: string, values: seq<JsValue>) returns (parts': seq<string>)
    ensures parts' == parts + ValueParts(h, key, values)
  {
    parts' := parts;
    var j := 0;
    assert values[..0] == [];
    while j < |values|
      invariant 0 <= j <= |values|
      invariant parts' == parts + ValueParts(h, key, values[..j])
    {
      var v := values[j];
      if v.Date? {
        v := Str(h.toISOString(v.time));
      } else if v.Obj? {
        v := Str(h.jsonStringify(v));
      }
      var pair := Encode(key) + "=" + Encode(ToJsString(h, v));
      assert pair == Part(h, key, values[j]);
      ValuePartsSnoc(h, key, values, j);
      ConcatAssoc(parts, ValueParts(h, key, values[..j]), [pair]);
      parts' := parts' + [pair];
      j := j + 1;
    }
    assert values[..j] == values;
  }

  /** The built-in serialisation: every property of `params`, in key order. */
  method SerializeEntries(h: Host, entries: seq<(string, JsValue)>) returns (parts: seq<string>)
    ensures parts == Parts(h, entries)
  {
    parts := [];
    var i := 0;
    while i < |entries|
      invariant 0 <= i <= |entries|
      invariant parts == Parts(h, entries[..i])
    {
      PartsSnoc(h, entries[..i], entries[i]);
      assert entries[..i] + [entries[i]] == entries[..i + 1];
      parts := PushEntry(h, parts, entries[i].0, entries[i].1);
      i := i + 1;
    }
    assert entries[..i] == entries;
  }

  /** `buildURL(url, params, paramsSerializer)`. */
  method BuildURL(h: Host, url: string, params: JsValue, paramsSerializer: Option<JsValue -> string>)
    returns (r: string)
    ensures r == BuiltURL(h, url, params, paramsSerializer)
  {
    if !Truthy(params) {
      return url;
    }
    var serializedParams: string;
    if paramsSerializer.Some? {
      serializedParams := paramsSerializer.value(params);
    } else if params.SearchParams? {
      serializedParams := params.query;
    } else {
      var parts := SerializeEntries(h, OwnEntries(params));
      serializedParams := Join(parts, "&");
    }
    r := url;
    if serializedParams != "" {
      var markIndex := IndexOf(r, '#');
      if markIndex != -1 {
        r := r[..markIndex];
      }
      r := r + (if IndexOf(r, '?') == -1 then "?" else "&") + serializedParams;
    }
  }

  // ---------------------------------------------------------------------------
  // What the built-in serialisation produces.

  lemma FlattenSnoc<T>(f: T -> seq<string>, xs: seq<T>, x: T)
    ensures Flatten(f, xs + [x]) == Flatten(f, xs) + f(x)
  {
    assert (xs + [x])[..|xs|] == xs;
  }

  lemma {:induction false} FlattenAppend<T>(f: T -> seq<string>, a: seq<T>, b: seq<T>)
    ensures Flatten(f, a + b) == Flatten(f, a) + Flatten(f, b)
    decreases |b|
  {
    if b == [] {
      assert a + b == a;
    } else {
      var n := |b| - 1;
      FlattenAppend(f, a, b[..n]);
      assert b == b[..n] + [b[n]];
      ConcatAssoc(a, b[..n], [b[n]]);
      FlattenSnoc(f, a + b[..n], b[n]);
      FlattenSnoc(f, b[..n], b[n]);
      ConcatAssoc(Flatten(f, a), Flatten(f, b[..n]), f(b[n]));
    }
  }

  /** Visiting one more property pushes its pairs after the others. */
  lemma PartsSnoc(h: Host, a: seq<(string, JsValue)>, e: (string, JsValue))
    ensures Parts(h, a + [e]) == Parts(h, a) + EntryParts(h, e.0, e.1)
  {
    FlattenSnoc(EntryPairs(h), a, e);
  }

  /** Visiting `a` then `b` pushes the pairs of `a` and then those of `b`. */
  lemma PartsAppend(h: Host, a: seq<(string, JsValue)>, b: seq<(string, JsValue)>)
    ensures Parts(h, a + b) == Parts(h, a) + Parts(h, b)
  {
    FlattenAppend(EntryPairs(h), a, b);
  }

  lemma PartsSingle(h: Host, key: string, val: JsValue)
    ensures Parts(h, [(key, val)]) == EntryParts(h, key, val)
  {
    PartsSnoc(h, [], (key, val));
    assert [] + [(key, val)] == [(key, val)];
  }

  /** A property whose value is null or undefined contributes no pair, wherever it is. */
  lemma AbsentValueSkipped(h: Host, a: seq<(string, JsValue)>, key: string, val: JsValue, b: seq<(string, JsValue)>)
    requires val.Null? || val.Undefined?
    ensures Parts(h, a + [(key, val)] + b) == Parts(h, a) + Parts(h, b)
  {
    PartsAppend(h, a + [(key, val)], b);
    PartsAppend(h, a, [(key, val)]);
    PartsSingle(h, key, val);
  }

  /** An array value gives one pair per element, in element order, under the key with
      `[]` appended; an empty array gives none. Any other value that is not null or
      undefined gives exactly one pair. */
  lemma EntryPartsShape(h: Host, key: string, val: JsValue)
    ensures val.Arr? ==> |Parts(h, [(key, val)])| == |val.elems|
    ensures val.Arr? ==> forall i :: 0 <= i < |val.elems| ==>
              Parts(h, [(key, val)])[i] == Encode(key + "[]") + "=" + Encode(ToJsString(h, Prepared(h, val.elems[i])))
    ensures !val.Arr? && !val.Null? && !val.Undefined? ==>
              Parts(h, [(key, val)]) == [Encode(key) + "=" + Encode(ToJsString(h, Prepared(h, val)))]
  {
    PartsSingle(h, key, val);
  }

  /** Properties that are all null or undefined give no pair at all. */
  lemma {:induction false} AllAbsentNoParts(h: Host, entries: seq<(string, JsValue)>)
    requires forall i :: 0 <= i < |entries| ==> entries[i].1.Null? || entries[i].1.Undefined?
    ensures Parts(h, entries) == []
  {
    if entries != [] {
      var n := |entries| - 1;
      AllAbsentNoParts(h, entries[..n]);
      PartsSnoc(h, entries[..n], entries[n]);
      assert entries[..n] + [entries[n]] == entries;
    }
  }

  /** Neither '&' nor '=' occurs in a text. */
  predicate DelimiterFree(s: string)
  {
    '&' !in s && '=' !in s
  }

  lemma {:induction false} EscapeBytesDelimiterFree(bs: seq<nat>)
    requires forall i :: 0 <= i < |bs| ==> bs[i] < 256
    ensures DelimiterFree(EscapeBytes(bs))
  {
    if bs != [] {
      var e := Escape(bs[0]);
      assert e == [e[0], e[1], e[2]];
      EscapeBytesDelimiterFree(bs[1..]);
    }
  }

  lemma {:induction false} RelaxedEncodeDelimiterFree(s: string)
    ensures DelimiterFree(RelaxedEncode(s))
  {
    if s != [] {
      var c := s[0];
      if !(c in "@:$,[]" || c == ' ' || Unreserved(c)) {
        EscapeBytesDelimiterFree(Utf8(c));
      }
      RelaxedEncodeDelimiterFree(s[1..]);
    }
  }

  /** `encode` escapes '&' and '=', so its output never contains them. */
  lemma EncodeDelimiterFree(s: string)
    ensures DelimiterFree(Encode(s))
  {
    RelaxedEncodeDelimiterFree(s);
  }

  lemma {:induction false} IndexOfIs(s: string, c: char, i: nat)
    requires i < |s| && s[i] == c && c !in s[..i]
    ensures IndexOf(s, c) == i
  {
    if i > 0 {
      assert s[0] == s[..i][0];
      assert s[1..][..i - 1] == s[..i][1..];
      IndexOfIs(s[1..], c, i - 1);
    }
  }

  /** In `x + [c] + y` with no `c` in `x`, the first `c` is the one between them. */
  lemma CutAt(x: string, c: char, y: string)
    requires c !in x
    ensures IndexOf(x + [c] + y, c) == |x|
    ensures (x + [c] + y)[..|x|] == x && (x + [c] + y)[|x| + 1..] == y
  {
    var s := x + [c] + y;
    assert s[..|x|] == x;
    IndexOfIs(s, c, |x|);
    assert s[|x| + 1..] == y;
  }

  lemma NotInJoined(x: string, c: char, y: string, d: char)
    requires d !in x && d !in y && d != c
    ensures d !in x + [c] + y
  {
  }

  /** A pair contains no '&', and its first '=' separates the encoded key from the
      encoded value. */
  lemma PartSplits(h: Host, key: string, v: JsValue)
    ensures '&' !in Part(h, key, v)
    ensures var p := Part(h, key, v);
            var i := IndexOf(p, '=');
            0 <= i && p[..i] == Encode(key) && p[i + 1..] == Encode(ToJsString(h, Prepared(h, v)))
  {
    var k := Encode(key);
    var w := Encode(ToJsString(h, Prepared(h, v)));
    EncodeDelimiterFree(key);
    EncodeDelimiterFree(ToJsString(h, Prepared(h, v)));
    assert Part(h, key, v) == k + ['='] + w;
    CutAt(k, '=', w);
    NotInJoined(k, '=', w, '&');
  }

  /** A query pair: no '&', at least one '='. */
  predicate IsPair(p: string)
  {
    '&' !in p && '=' in p
  }

  lemma {:induction false} PartsArePairs(h: Host, entries: seq<(string, JsValue)>)
    ensures forall i :: 0 <= i < |Parts(h, entries)| ==> IsPair(Parts(h, entries)[i])
  {
    if entries != [] {
      var n := |entries| - 1;
      PartsArePairs(h, entries[..n]);
      PartsSnoc(h, entries[..n], entries[n]);
      assert entries[..n] + [entries[n]] == entries;
    }
  }

  lemma JoinNonEmpty(parts: seq<string>, sep: string)
    requires parts != [] && parts[|parts| - 1] != ""
    ensures Join(parts, sep) != ""
  {
  }

  /** With neither a serializer nor a URLSearchParams object, the query text is empty
      exactly when no property gave a pair, e.g. for `{}` or for all-null params. */
  lemma SerializedEmptyIffNoPairs(h: Host, params: JsValue)
    requires !params.SearchParams?
    ensures SerializedParams(h, params, None) == "" <==> Parts(h, OwnEntries(params)) == []
  {
    var parts := Parts(h, OwnEntries(params));
    if parts != [] {
      PartsArePairs(h, OwnEntries(params));
      assert IsPair(parts[|parts| - 1]);
      JoinNonEmpty(parts, "&");
    }
  }

  /** JavaScript's `s.split(c)` for a one-character separator: the pieces between the
      separators, from left to right. */
  function SplitOn(s: string, c: char): (r: seq<string>)
    ensures r != []
  {
    if s == [] then [""]
    else if s[0] == c then [""] + SplitOn(s[1..], c)
    else var r := SplitOn(s[1..], c); [[s[0]] + r[0]] + r[1..]
  }

  lemma {:induction false} SplitOnNone(s: string, c: char)
    requires c !in s
    ensures SplitOn(s, c) == [s]
  {
    if s != [] {
      SplitOnNone(s[1..], c);
      assert [s[0]] + s[1..] == s;
    }
  }

  lemma {:induction false} SplitAppend(x: string, c: char, y: string)
    requires c !in y
    ensures SplitOn(x + [c] + y, c) == SplitOn(x, c) + [y]
  {
    var s := x + [c] + y;
    if x == [] {
      assert s[1..] == y;
      SplitOnNone(y, c);
    } else {
      assert s[0] == x[0] && s[1..] == x[1..] + [c] + y;
      SplitAppend(x[1..], c, y);
      if x[0] == c {
        ConcatAssoc([""], SplitOn(x[1..], c), [y]);
      } else {
        var r' := SplitOn(x[1..], c);
        assert (r' + [y])[0] == r'[0] && (r' + [y])[1..] == r'[1..] + [y];
        ConcatAssoc([[x[0]] + r'[0]], r'[1..], [y]);
      }
    }
  }

  /** Splitting a joined list at a separator that none of its items contains gives the
      items back. */
  lemma {:induction false} SplitJoin(parts: seq<string>, c: char)
    requires parts != []
    requires forall i :: 0 <= i < |parts| ==> c !in parts[i]
    ensures SplitOn(Join(parts, [c]), c) == parts
  {
    if |parts| == 1 {
      SplitOnNone(parts[0], c);
    } else {
      var n := |parts| - 1;
      SplitJoin(parts[..n], c);
      SplitAppend(Join(parts[..n], [c]), c, parts[n]);
      assert parts[..n] + [parts[n]] == parts;
    }
  }

  /** The built-in query text splits at '&' back into exactly the pairs, in key order
      and element order. */
  lemma QuerySplitsIntoPairs(h: Host, params: JsValue)
    requires !params.SearchParams? && Parts(h, OwnEntries(params)) != []
    ensures SplitOn(SerializedParams(h, params, None), '&') == Parts(h, OwnEntries(params))
  {
    PartsArePairs(h, OwnEntries(params));
    SplitJoin(Parts(h, OwnEntries(params)), '&');
  }
}
