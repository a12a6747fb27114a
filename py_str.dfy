/** The few Python `str` builtins that the modelled scripts rely on:
    `strip()`, `split(sep)`, `split(sep)[-1]`, `replace(c, '')` and `int()`. */
module PyStr {
  import opened Wrappers

  /** The characters for which Python's `str.isspace()` holds, which are
      the ones `strip()` with no argument removes. */
  predicate IsSpace(c: char) {
    || c == ' '
    || ('\t' <= c <= '\r')                   // \t \n \x0b \x0c \r
    || ('\U{1C}' <= c <= '\U{1F}')           // file, group, record, unit separators
    || c == '\U{85}' || c == '\U{A0}' || c == '\U{1680}'
    || ('\U{2000}' <= c <= '\U{200A}')
    || c == '\U{2028}' || c == '\U{2029}' || c == '\U{202F}' || c == '\U{205F}'
    || c == '\U{3000}'
  }

  predicate AllSpace(s: string) {
    forall k :: 0 <= k < |s| ==> IsSpace(s[k])
  }

  function StripLeft(s: string): string {
    if |s| > 0 && IsSpace(s[0]) then StripLeft(s[1..]) else s
  }

  function StripRight(s: string): string {
    if |s| > 0 && IsSpace(s[|s| - 1]) then StripRight(s[..|s| - 1]) else s
  }

  /** Python's `s.strip()`. */
  function Strip(s: string): string {
    StripRight(StripLeft(s))
  }

  /** `StripLeft` removes a leading run of whitespace and stops at the
      first other character. */
  lemma {:induction false} StripLeftSpec(s: string)
    ensures var r := StripLeft(s);
            && |r| <= |s| && r == s[|s| - |r|..]
            && AllSpace(s[..|s| - |r|])
            && (r == [] || !IsSpace(r[0]))
  {
    if |s| > 0 && IsSpace(s[0]) {
      var t := s[1..];
      StripLeftSpec(t);
      var r := StripLeft(t);
      assert s[..|s| - |r|] == [s[0]] + t[..|t| - |r|];
      AllSpaceConcat([s[0]], t[..|t| - |r|]);
    }
  }

  lemma {:induction false} StripRightSpec(s: string)
    ensures var r := StripRight(s);
            && |r| <= |s| && r == s[..|r|]
            && AllSpace(s[|r|..])
            && (r == [] || !IsSpace(r[|r| - 1]))
  {
    if |s| > 0 && IsSpace(s[|s| - 1]) {
      var t := s[..|s| - 1];
      StripRightSpec(t);
      var r := StripRight(t);
      assert s[..|r|] == t[..|r|];
      assert s[|r|..] == t[|r|..] + [s[|s| - 1]];
      AllSpaceConcat(t[|r|..], [s[|s| - 1]]);
    }
  }

  lemma AllSpaceConcat(a: string, b: string)
    ensures AllSpace(a + b) <==> AllSpace(a) && AllSpace(b)
  {
    if AllSpace(a) && AllSpace(b) {
      forall k | 0 <= k < |a + b|
        ensures IsSpace((a + b)[k])
      {
        if k < |a| { assert (a + b)[k] == a[k]; } else { assert (a + b)[k] == b[k - |a|]; }
      }
    }
    if AllSpace(a + b) {
      assert forall k :: 0 <= k < |a| ==> a[k] == (a + b)[k];
      assert forall k :: 0 <= k < |b| ==> b[k] == (a + b)[|a| + k];
    }
  }

  /** `strip()` leaves the slice of `s` between a leading and a trailing
      run of whitespace, with no whitespace at either end; it leaves
      nothing exactly when `s` is all whitespace. */
  lemma StripSpec(s: string)
    ensures var r := Strip(s);
            && (exists i :: 0 <= i <= |s| - |r| && r == s[i..i + |r|]
                            && AllSpace(s[..i]) && AllSpace(s[i + |r|..]))
            && (r == [] || (!IsSpace(r[0]) && !IsSpace(r[|r| - 1])))
            && (r == [] <==> AllSpace(s))
  {
    StripAt(s);
    StripEdges(s);
    StripEmpty(s);
  }

  /** The slice `strip()` keeps starts where the leading run ends. */
  lemma StripAt(s: string)
    ensures var r, i := Strip(s), |s| - |StripLeft(s)|;
            && 0 <= i <= |s| - |r| && r == s[i..i + |r|]
            && AllSpace(s[..i]) && AllSpace(s[i + |r|..])
  {
    var l := StripLeft(s);
    StripLeftSpec(s);
    StripRightSpec(l);
    var r := StripRight(l);
    var i := |s| - |l|;
    assert l == s[i..];
    assert r == s[i..i + |r|];
    assert s[i + |r|..] == l[|r|..];
  }

  lemma StripEdges(s: string)
    ensures var r := Strip(s); r == [] || (!IsSpace(r[0]) && !IsSpace(r[|r| - 1]))
  {
    var l := StripLeft(s);
    StripLeftSpec(s);
    StripRightSpec(l);
    var r := StripRight(l);
    if r != [] {
      assert r[0] == l[0];
    }
  }

  lemma StripEmpty(s: string)
    ensures Strip(s) == [] <==> AllSpace(s)
  {
    var l := StripLeft(s);
    StripLeftSpec(s);
    StripRightSpec(l);
    var r := StripRight(l);
    var i := |s| - |l|;
    if r == [] {
      assert l == [] by { assert l[|r|..] == l; }
      assert s[..i] == s;
    } else {
      assert l == s[i..];
      assert r[0] == l[0] == s[i];
    }
  }

  /** Stripping twice strips nothing more. */
  lemma StripIdempotent(s: string)
    ensures Strip(Strip(s)) == Strip(s)
  {
    StripSpec(s);
    var t := Strip(s);
    if t != [] {
      StripNoEdgeSpace(t);
    }
  }

  /** Number of occurrences of `c` in `s`. */
  function Count(s: string, c: char): nat {
    if |s| == 0 then 0 else (if s[0] == c then 1 else 0) + Count(s[1..], c)
  }

  /** Joins the pieces with `sep` in between: Python's `sep.join(ps)`. */
  function Join(ps: seq<string>, sep: char): string
    requires |ps| >= 1
  {
    if |ps| == 1 then ps[0] else ps[0] + [sep] + Join(ps[1..], sep)
  }

  /** Python's `s.split(sep)` for a one-character separator: the maximal
      separator-free pieces between occurrences of `sep`, in order. */
  function Split(s: string, sep: char): (r: seq<string>)
    ensures |r| >= 1
  {
    if |s| == 0 then [""]
    else
      var rest := Split(s[1..], sep);
      if s[0] == sep then [""] + rest
      else [[s[0]] + rest[0]] + rest[1..]
  }

  /** One more piece than there are separators, no piece holds one, and
      joining the pieces back with the separator gives `s`. */
  lemma SplitSpec(s: string, sep: char)
    ensures var r := Split(s, sep);
            && |r| == Count(s, sep) + 1
            && (forall k :: 0 <= k < |r| ==> sep !in r[k])
            && Join(r, sep) == s
  {
    SplitCount(s, sep);
    SplitPiecesFree(s, sep);
    SplitJoinBack(s, sep);
  }

  lemma {:induction false} SplitCount(s: string, sep: char)
    ensures |Split(s, sep)| == Count(s, sep) + 1
  {
    if |s| > 0 {
      SplitCount(s[1..], sep);
    }
  }

  lemma {:induction false} SplitPiecesFree(s: string, sep: char)
    ensures forall k :: 0 <= k < |Split(s, sep)| ==> sep !in Split(s, sep)[k]
  {
    if |s| > 0 {
      SplitPiecesFree(s[1..], sep);
      var rest := Split(s[1..], sep);
      var r := Split(s, sep);
      if s[0] != sep {
        assert r[0] == [s[0]] + rest[0];
        assert forall k :: 1 <= k < |r| ==> r[k] == rest[k];
      } else {
        assert forall k :: 1 <= k < |r| ==> r[k] == rest[k - 1];
      }
    }
  }

  lemma {:induction false} SplitJoinBack(s: string, sep: char)
    ensures Join(Split(s, sep), sep) == s
  {
    if |s| > 0 {
      SplitJoinBack(s[1..], sep);
      var rest := Split(s[1..], sep);
      if s[0] == sep {
        assert Split(s, sep) == [""] + rest;
        JoinCons("", rest, sep);
      } else {
        assert Split(s, sep) == [[s[0]] + rest[0]] + rest[1..];
        JoinHead(s[0], rest, sep);
      }
      assert s == [s[0]] + s[1..];
    }
  }

  lemma JoinCons(a: string, ps: seq<string>, sep: char)
    requires |ps| >= 1
    ensures Join([a] + ps, sep) == a + [sep] + Join(ps, sep)
  {
    assert ([a] + ps)[1..] == ps;
  }

  /** Putting a character in front of the first piece puts it in front of
      the join. */
  lemma JoinHead(c: char, ps: seq<string>, sep: char)
    requires |ps| >= 1
    ensures Join([[c] + ps[0]] + ps[1..], sep) == [c] + Join(ps, sep)
  {
    if |ps| > 1 {
      JoinCons([c] + ps[0], ps[1..], sep);
      assert ps == [ps[0]] + ps[1..];
      JoinCons(ps[0], ps[1..], sep);
    }
  }

  /** Splitting at a separator between two strings splits each side on its own. */
  lemma {:induction false} SplitAround(a: string, sep: char, b: string)
    ensures Split(a + [sep] + b, sep) == Split(a, sep) + Split(b, sep)
  {
    if |a| == 0 {
      assert a + [sep] + b == [sep] + b;
      SplitCons(sep, b, sep);
    } else {
      var c, t := a[0], a[1..];
      SplitAround(t, sep, b);
      assert a + [sep] + b == [c] + (t + [sep] + b);
      SplitCons(c, t + [sep] + b, sep);
      assert a == [c] + t;
      SplitCons(c, t, sep);
      ConsPieces(c, sep, Split(t, sep), Split(b, sep));
    }
  }

  /** `Split` on a string with one character in front. */
  lemma SplitCons(c: char, t: string, sep: char)
    ensures Split([c] + t, sep) == ConsPiece(c, sep, Split(t, sep))
  {
    assert ([c] + t)[0] == c && ([c] + t)[1..] == t;
  }

  /** The pieces of `[c] + t` given the pieces `ps` of `t`. */
  function ConsPiece(c: char, sep: char, ps: seq<string>): seq<string>
    requires |ps| >= 1
  {
    if c == sep then [""] + ps else [[c] + ps[0]] + ps[1..]
  }

  lemma ConsPieces(c: char, sep: char, ps: seq<string>, qs: seq<string>)
    requires |ps| >= 1
    ensures ConsPiece(c, sep, ps + qs) == ConsPiece(c, sep, ps) + qs
  {
    if c != sep {
      assert (ps + qs)[0] == ps[0] && (ps + qs)[1..] == ps[1..] + qs;
    }
  }

  /** Splitting a join of separator-free pieces gives the pieces back. */
  lemma {:induction false} SplitJoin(ps: seq<string>, sep: char)
    requires |ps| >= 1
    requires forall k :: 0 <= k < |ps| ==> sep !in ps[k]
    ensures Split(Join(ps, sep), sep) == ps
  {
    if |ps| == 1 {
      SplitFree(ps[0], sep);
    } else {
      SplitJoin(ps[1..], sep);
      SplitFree(ps[0], sep);
      SplitAround(ps[0], sep, Join(ps[1..], sep));
      assert [ps[0]] + ps[1..] == ps;
    }
  }

  /** A separator-free string is one piece. */
  lemma {:induction false} SplitFree(s: string, sep: char)
    requires sep !in s
    ensures Split(s, sep) == [s]
  {
    if |s| > 0 {
      SplitFree(s[1..], sep);
      assert [s[0]] + s[1..] == s;
    }
  }

  /** Python's `s.split(sep)[-1]`: the text after the last `sep`, or all of
      `s` when it holds none. */
  function LastField(s: string, sep: char): (r: string)
    ensures sep !in r
    ensures |r| <= |s| && r == s[|s| - |r|..]
  {
    var ps := Split(s, sep);
    SplitSpec(s, sep);
    LastPieceIsSuffix(ps, sep);
    ps[|ps| - 1]
  }

  lemma {:induction false} LastPieceIsSuffix(ps: seq<string>, sep: char)
    requires |ps| >= 1
    ensures var j := Join(ps, sep); var l := ps[|ps| - 1]; |l| <= |j| && l == j[|j| - |l|..]
  {
    if |ps| > 1 {
      LastPieceIsSuffix(ps[1..], sep);
    }
  }

  /** The last field of `prefix + sep + tail` is `tail` when `tail` holds no
      separator, whatever the prefix. */
  lemma LastFieldAfter(prefix: string, sep: char, tail: string)
    requires sep !in tail
    ensures LastField(prefix + [sep] + tail, sep) == tail
  {
    SplitAround(prefix, sep, tail);
    SplitFree(tail, sep);
  }

  /** Python's `s.replace(c, '')`: `s` with every `c` removed. */
  function RemoveAll(s: string, c: char): string {
    if |s| == 0 then [] else (if s[0] == c then [] else [s[0]]) + RemoveAll(s[1..], c)
  }

  /** No `c` is left, every other character keeps its multiplicity, and a
      string without `c` is unchanged. */
  lemma {:induction false} RemoveAllSpec(s: string, c: char)
    ensures c !in RemoveAll(s, c)
    ensures forall x :: x != c ==> multiset(RemoveAll(s, c))[x] == multiset(s)[x]
    ensures c !in s ==> RemoveAll(s, c) == s
  {
    if |s| > 0 {
      RemoveAllSpec(s[1..], c);
      assert s == [s[0]] + s[1..];
    }
  }

  predicate IsDigit(c: char) { '0' <= c <= '9' }

  predicate AllDigits(s: string) {
    forall k :: 0 <= k < |s| ==> IsDigit(s[k])
  }

  /** The value of a string of decimal digits, most significant first. */
  function DigitsValue(s: string): nat
    requires AllDigits(s)
  {
    if |s| == 0 then 0 else DigitsValue(s[..|s| - 1]) * 10 + (s[|s| - 1] - '0') as nat
  }

  /** Python's `int(s)` on a string: surrounding whitespace ignored, an
      optional sign, then at least one decimal digit; anything else is the
      ValueError, here `None`. */
  function ParseInt(s: string): Option<int> {
    ParseSigned(Strip(s))
  }

  /** `int` on a string with no surrounding whitespace. */
  function ParseSigned(t: string): Option<int> {
    if |t| >= 2 && (t[0] == '-' || t[0] == '+') && AllDigits(t[1..]) then
      var v: int := DigitsValue(t[1..]);
      Some(if t[0] == '-' then -v else v)
    else if |t| >= 1 && AllDigits(t) then
      Some(DigitsValue(t))
    else
      None
  }

  /** Decimal digits of `n`, most significant first, no leading zero. */
  function NatDigits(n: nat): (r: string)
    ensures |r| >= 1 && AllDigits(r)
    ensures r[0] != '0' || n == 0
  {
    if n < 10 then ['0' + n as char] else NatDigits(n / 10) + ['0' + (n % 10) as char]
  }

  /** Python's `str(n)` for an int. */
  function ShowInt(n: int): string {
    if n < 0 then "-" + NatDigits(-n) else NatDigits(n)
  }

  lemma {:induction false} DigitsValueOfNatDigits(n: nat)
    ensures DigitsValue(NatDigits(n)) == n
  {
    if n >= 10 {
      DigitsValueOfNatDigits(n / 10);
      var d := NatDigits(n);
      assert d[..|d| - 1] == NatDigits(n / 10);
    }
  }

  /** `int(str(n)) == n`: the integer parse reads back what `str` prints. */
  lemma ParseShowInt(n: int)
    ensures ParseInt(ShowInt(n)) == Some(n)
  {
    var s := ShowInt(n);
    assert !IsSpace(s[0]) && !IsSpace(s[|s| - 1]);
    StripNoEdgeSpace(s);
    ParseSignedShowInt(n);
  }

  lemma ParseSignedShowInt(n: int)
    ensures ParseSigned(ShowInt(n)) == Some(n)
  {
    var s := ShowInt(n);
    if n < 0 {
      var d := NatDigits(-n);
      DigitsValueOfNatDigits(-n);
      assert s == "-" + d && s[1..] == d;
      assert |s| >= 2 && s[0] == '-' && AllDigits(s[1..]);
      var v: int := DigitsValue(d);
      assert ParseSigned(s) == Some(-v);
    } else {
      var d := NatDigits(n);
      DigitsValueOfNatDigits(n);
      assert s == d && IsDigit(s[0]);
      assert !(|s| >= 2 && (s[0] == '-' || s[0] == '+'));
      assert ParseSigned(s) == Some(DigitsValue(d));
    }
  }

  lemma StripNoEdgeSpace(s: string)
    requires s != [] && !IsSpace(s[0]) && !IsSpace(s[|s| - 1])
    ensures Strip(s) == s
  {
    var r := Strip(s);
    StripSpec(s);
    var i :| 0 <= i <= |s| - |r| && r == s[i..i + |r|] && AllSpace(s[..i]) && AllSpace(s[i + |r|..]);
  }

  /** Nothing made of whitespace alone, the empty string included, parses
      as an integer. */
  lemma ParseIntBlank(s: string)
    requires AllSpace(s)
    ensures ParseInt(s) == None
  {
    StripSpec(s);
  }
}
