/** Percent-encoding as the JavaScript runtime does it: `encodeURIComponent` (section 19.2.6
    of ECMA-262, "URI Handling Functions") and global replacement of a three-character
    escape such as %3A (in either case of its letter), together with the token structure
    ("%XY" or one other character) that makes those replacements compose. */
module UriEncoding {
  import opened Js

  /** The characters `encodeURIComponent` leaves alone: letters, digits and `- _ . ! ~ * ' ( )`. */
  predicate Unreserved(c: char)
  {
    ('A' <= c <= 'Z') || ('a' <= c <= 'z') || ('0' <= c <= '9') || c in "-_.!~*'()"
  }

  predicate IsHex(c: char)
  {
    ('0' <= c <= '9') || ('A' <= c <= 'F') || ('a' <= c <= 'f')
  }

  predicate IsUpperHex(c: char)
  {
    ('0' <= c <= '9') || ('A' <= c <= 'F')
  }

  function HexDigit(n: nat): (c: char)
    requires n < 16
    ensures IsUpperHex(c)
  {
    if n < 10 then ('0' as int + n) as char else ('A' as int + n - 10) as char
  }

  lemma HexDigitInjective(m: nat, n: nat)
    requires m < 16 && n < 16 && HexDigit(m) == HexDigit(n)
    ensures m == n
  {
  }

  /** One octet written `%XY` with upper-case hexadecimal digits. */
  function Escape(b: nat): (e: string)
    requires b < 256
    ensures |e| == 3 && e[0] == '%' && IsUpperHex(e[1]) && IsUpperHex(e[2])
  {
    ['%', HexDigit(b / 16), HexDigit(b % 16)]
  }

  lemma {:induction false} EscapeInjective(a: nat, b: nat)
    requires a < 256 && b < 256 && Escape(a) == Escape(b)
    ensures a == b
  {
    assert Escape(a)[1] == Escape(b)[1] && Escape(a)[2] == Escape(b)[2];
    HexDigitInjective(a / 16, b / 16);
    HexDigitInjective(a % 16, b % 16);
  }

  /** The UTF-8 octets of a code point. */
  function Utf8(c: char): (bs: seq<nat>)
    ensures 1 <= |bs| <= 4
    ensures forall i :: 0 <= i < |bs| ==> bs[i] < 256
    ensures (c as int) < 0x80 ==> bs == [c as int]
    ensures (c as int) >= 0x80 ==> forall i :: 0 <= i < |bs| ==> bs[i] >= 0x80
  {
    var cp := c as int;
    if cp < 0x80 then [cp]
    else if cp < 0x800 then [0xC0 + cp / 0x40, 0x80 + cp % 0x40]
    else if cp < 0x1_0000 then [0xE0 + cp / 0x1000, 0x80 + (cp / 0x40) % 0x40, 0x80 + cp % 0x40]
    else [0xF0 + cp / 0x4_0000, 0x80 + (cp / 0x1000) % 0x40, 0x80 + (cp / 0x40) % 0x40, 0x80 + cp % 0x40]
  }

  /** The octets, each written `%XY`. */
  function EscapeBytes(bs: seq<nat>): (r: string)
    requires forall i :: 0 <= i < |bs| ==> bs[i] < 256
    ensures |r| == 3 * |bs|
    ensures forall i :: 0 <= i < |r| ==> r[i] == '%' || IsUpperHex(r[i])
  {
    if bs == [] then "" else Escape(bs[0]) + EscapeBytes(bs[1..])
  }

  /** What `encodeURIComponent` makes of one character. */
  function EncodeChar(c: char): (r: string)
    ensures r != []
    ensures forall i :: 0 <= i < |r| ==> Unreserved(r[i]) || r[i] == '%'
  {
    if Unreserved(c) then [c] else EscapeBytes(Utf8(c))
  }

  /** `encodeURIComponent(s)`. A Dafny string holds code points, so the lone surrogates
      for which the JavaScript function throws cannot occur. */
  function EncodeURIComponent(s: string): (r: string)
    ensures |r| >= |s|
    ensures forall i :: 0 <= i < |r| ==> Unreserved(r[i]) || r[i] == '%'
  {
    if s == [] then "" else EncodeChar(s[0]) + EncodeURIComponent(s[1..])
  }

  // ---------------------------------------------------------------------------
  // Escaped text: a sequence of tokens, each "%XY" with hexadecimal X and Y or a
  // single character other than '%'. `Escaped(s, bad)` also says that no "%XY"
  // token of s is in `bad`.

  predicate Escaped(s: string, bad: set<string>)
    decreases |s|
  {
    if s == [] then true
    else if s[0] == '%' then |s| >= 3 && IsHex(s[1]) && IsHex(s[2]) && s[..3] !in bad && Escaped(s[3..], bad)
    else Escaped(s[1..], bad)
  }

  /** The patterns `replace` looks for here: three characters, the first of them '%'. */
  predicate EscapePatterns(pats: set<string>)
  {
    forall p :: p in pats ==> |p| == 3 && p[0] == '%'
  }

  lemma {:induction false} EscapedAppend(a: string, b: string, bad: set<string>)
    requires Escaped(a, bad) && Escaped(b, bad)
    ensures Escaped(a + b, bad)
    decreases |a|
  {
    if a == [] {
      assert a + b == b;
    } else if a[0] == '%' {
      assert (a + b)[..3] == a[..3] && (a + b)[3..] == a[3..] + b;
      EscapedAppend(a[3..], b, bad);
    } else {
      assert (a + b)[1..] == a[1..] + b;
      EscapedAppend(a[1..], b, bad);
    }
  }

  lemma {:induction false} EscapedWeaken(s: string, bad: set<string>, fewer: set<string>)
    requires Escaped(s, bad) && fewer <= bad
    ensures Escaped(s, fewer)
    decreases |s|
  {
    if s == [] {
    } else if s[0] == '%' {
      EscapedWeaken(s[3..], bad, fewer);
    } else {
      EscapedWeaken(s[1..], bad, fewer);
    }
  }

  lemma {:induction false} NoPercentEscaped(s: string, bad: set<string>)
    requires '%' !in s
    ensures Escaped(s, bad)
    decreases |s|
  {
    if s != [] {
      NoPercentEscaped(s[1..], bad);
    }
  }

  /** The three characters of s from position i. */
  function Window(s: string, i: nat): string
    requires i + 3 <= |s|
  {
    s[i..i + 3]
  }

  /** Escaped text has no token of `bad` at any position, aligned to a token or not. */
  lemma {:induction false} EscapedNoneAt(s: string, bad: set<string>)
    requires EscapePatterns(bad) && Escaped(s, bad)
    ensures forall i: nat :: i + 3 <= |s| ==> Window(s, i) !in bad
    decreases |s|
  {
    if s == [] {
    } else if s[0] == '%' {
      EscapedNoneAt(s[3..], bad);
      forall i: nat | i + 3 <= |s| ensures Window(s, i) !in bad {
        if i == 0 {
          assert Window(s, i) == s[..3];
        } else if i < 3 {
          assert Window(s, i)[0] == s[i] != '%';
        } else {
          assert Window(s, i) == Window(s[3..], i - 3);
        }
      }
    } else {
      EscapedNoneAt(s[1..], bad);
      forall i: nat | i + 3 <= |s| ensures Window(s, i) !in bad {
        if i == 0 {
          assert Window(s, i)[0] == s[0] != '%';
        } else {
          assert Window(s, i) == Window(s[1..], i - 1);
        }
      }
    }
  }

  // ---------------------------------------------------------------------------
  // Global replacement of a three-character literal pattern, `s.replace(/%XY/g, rep)`;
  // `pats` holds the spellings the pattern matches (both cases of a letter under /i).

  function ReplaceAll(s: string, pats: set<string>, rep: string): string
    decreases |s|
  {
    if |s| >= 3 && s[..3] in pats then rep + ReplaceAll(s[3..], pats, rep)
    else if s == [] then ""
    else [s[0]] + ReplaceAll(s[1..], pats, rep)
  }

  /** A character other than '%' never starts a match and is copied. */
  lemma ReplaceSkip(s: string, pats: set<string>, rep: string)
    requires EscapePatterns(pats) && s != [] && s[0] != '%'
    ensures ReplaceAll(s, pats, rep) == [s[0]] + ReplaceAll(s[1..], pats, rep)
  {
    assert |s| >= 3 ==> s[..3][0] != '%';
  }

  /** An unmatched token is copied character by character. */
  lemma ReplaceSkipToken(s: string, pats: set<string>, rep: string)
    requires EscapePatterns(pats) && |s| >= 3 && s[0] == '%' && s[1] != '%' && s[2] != '%'
    requires s[..3] !in pats
    ensures ReplaceAll(s, pats, rep) == s[..3] + ReplaceAll(s[3..], pats, rep)
  {
    var t := ReplaceAll(s[3..], pats, rep);
    assert ReplaceAll(s[2..], pats, rep) == [s[2]] + t by {
      ReplaceSkip(s[2..], pats, rep);
      assert s[2..][1..] == s[3..];
    }
    assert ReplaceAll(s[1..], pats, rep) == [s[1]] + ([s[2]] + t) by {
      ReplaceSkip(s[1..], pats, rep);
      assert s[1..][1..] == s[2..];
    }
    assert [s[0]] + ([s[1]] + ([s[2]] + t)) == s[..3] + t;
  }

  lemma ReplaceMatch(s: string, pats: set<string>, rep: string)
    requires |s| >= 3 && s[..3] in pats
    ensures ReplaceAll(s, pats, rep) == rep + ReplaceAll(s[3..], pats, rep)
  {
  }

  /** One copied character: the cut moves past it. */
  lemma ReplaceAppendSkip(a: string, b: string, pats: set<string>, rep: string)
    requires EscapePatterns(pats) && a != [] && a[0] != '%'
    requires ReplaceAll(a[1..] + b, pats, rep) == ReplaceAll(a[1..], pats, rep) + ReplaceAll(b, pats, rep)
    ensures ReplaceAll(a + b, pats, rep) == ReplaceAll(a, pats, rep) + ReplaceAll(b, pats, rep)
  {
    var ab := a + b;
    assert ab[0] == a[0] && ab[1..] == a[1..] + b;
    ReplaceSkip(ab, pats, rep);
    ReplaceSkip(a, pats, rep);
    ConcatAssoc([a[0]], ReplaceAll(a[1..], pats, rep), ReplaceAll(b, pats, rep));
  }

  /** One token: the cut moves past it, whether it is replaced or copied. */
  lemma ReplaceAppendToken(a: string, b: string, pats: set<string>, rep: string)
    requires EscapePatterns(pats) && |a| >= 3 && a[0] == '%' && IsHex(a[1]) && IsHex(a[2])
    requires ReplaceAll(a[3..] + b, pats, rep) == ReplaceAll(a[3..], pats, rep) + ReplaceAll(b, pats, rep)
    ensures ReplaceAll(a + b, pats, rep) == ReplaceAll(a, pats, rep) + ReplaceAll(b, pats, rep)
  {
    var ab := a + b;
    assert ab[..3] == a[..3];
    assert ab[3..] == a[3..] + b;
    var ra, rb := ReplaceAll(a[3..], pats, rep), ReplaceAll(b, pats, rep);
    if a[..3] in pats {
      ReplaceMatch(a, pats, rep);
      ReplaceMatch(ab, pats, rep);
      ConcatAssoc(rep, ra, rb);
    } else {
      TokenNotPercent(a);
      ReplaceSkipToken(a, pats, rep);
      ReplaceSkipToken(ab, pats, rep);
      ConcatAssoc(a[..3], ra, rb);
    }
  }

  lemma TokenNotPercent(a: string)
    requires |a| >= 3 && IsHex(a[1]) && IsHex(a[2])
    ensures a[1] != '%' && a[2] != '%'
  {
  }

  /** Replacement works token by token: it distributes over a cut at a token boundary. */
  lemma {:induction false} ReplaceAppend(a: string, b: string, pats: set<string>, rep: string)
    requires EscapePatterns(pats) && Escaped(a, {})
    ensures ReplaceAll(a + b, pats, rep) == ReplaceAll(a, pats, rep) + ReplaceAll(b, pats, rep)
    decreases |a|
  {
    if a == [] {
      assert a + b == b;
    } else if a[0] != '%' {
      ReplaceAppend(a[1..], b, pats, rep);
      ReplaceAppendSkip(a, b, pats, rep);
    } else {
      ReplaceAppend(a[3..], b, pats, rep);
      ReplaceAppendToken(a, b, pats, rep);
    }
  }

  /** Replacing tokens by escaped text keeps the text escaped (and free of `bad`). */
  lemma {:induction false} ReplaceKeepsEscaped(s: string, pats: set<string>, rep: string, bad: set<string>)
    requires EscapePatterns(pats) && Escaped(s, bad) && Escaped(rep, bad)
    ensures Escaped(ReplaceAll(s, pats, rep), bad)
    decreases |s|
  {
    if s == [] {
    } else if s[0] != '%' {
      ReplaceSkip(s, pats, rep);
      ReplaceKeepsEscaped(s[1..], pats, rep, bad);
      var r := ReplaceAll(s[1..], pats, rep);
      assert ([s[0]] + r)[1..] == r;
    } else if s[..3] in pats {
      ReplaceKeepsEscaped(s[3..], pats, rep, bad);
      EscapedAppend(rep, ReplaceAll(s[3..], pats, rep), bad);
    } else {
      // the token stays: its '%' and its two digits are copied one by one
      ReplaceKeepsEscaped(s[3..], pats, rep, bad);
      var r := ReplaceAll(s[3..], pats, rep);
      ReplaceSkipToken(s, pats, rep);
      assert (s[..3] + r)[..3] == s[..3];
      assert (s[..3] + r)[3..] == r;
    }
  }

  /** Text without a token of `pats` is left unchanged. */
  lemma {:induction false} ReplaceNothing(s: string, pats: set<string>, rep: string)
    requires EscapePatterns(pats) && Escaped(s, pats)
    ensures ReplaceAll(s, pats, rep) == s
    decreases |s|
  {
    if s == [] {
    } else if s[0] != '%' {
      ReplaceSkip(s, pats, rep);
      ReplaceNothing(s[1..], pats, rep);
    } else {
      ReplaceNothing(s[3..], pats, rep);
      ReplaceSkipToken(s, pats, rep);
      assert s == s[..3] + s[3..];
    }
  }

  /** A lone token is replaced exactly when it is one of `pats`. */
  lemma ReplaceToken(t: string, pats: set<string>, rep: string)
    requires EscapePatterns(pats) && |t| == 3 && t[0] == '%' && IsHex(t[1]) && IsHex(t[2])
    ensures ReplaceAll(t, pats, rep) == if t in pats then rep else t
  {
    assert t[..3] == t;
    if t !in pats {
      assert Escaped(t[3..], pats);
      ReplaceNothing(t, pats, rep);
    } else {
      assert t[3..] == [];
    }
  }
}
