/**
 * The parts of Python's `str` type that the entry parser is built from: `isspace`, `lower`,
 * `strip`, `split()`, `split(sep)`, `split(sep, 1)` and `sep.join`, over ASCII characters.
 */
module Text {
  import opened Wrappers

  /** `str.isspace()` on the ASCII range: tab, line feed, vertical tab, form feed, carriage
      return, the four separators 0x1c-0x1f, and space. */
  predicate IsSpace(c: char) {
    c == ' ' || 9 <= c as int <= 13 || 28 <= c as int <= 31
  }

  predicate IsUpper(c: char) {
    'A' <= c <= 'Z'
  }

  predicate AllSpace(s: string) {
    forall i :: 0 <= i < |s| ==> IsSpace(s[i])
  }

  predicate NoUpper(s: string) {
    forall i :: 0 <= i < |s| ==> !IsUpper(s[i])
  }

  /** Neither end of `s` is whitespace. */
  predicate IsTrimmed(s: string) {
    s == [] || (!IsSpace(s[0]) && !IsSpace(s[|s| - 1]))
  }

  /** A non-empty run of non-whitespace characters. */
  predicate IsWord(w: string) {
    w != [] && forall i :: 0 <= i < |w| ==> !IsSpace(w[i])
  }

  /** `str.lower()` on one character: A-Z become a-z, everything else is kept. */
  function LowerChar(c: char): (d: char)
    ensures !IsUpper(d)
    ensures IsSpace(d) == IsSpace(c)
    ensures !IsUpper(c) ==> d == c
  {
    if IsUpper(c) then (c as int + 32) as char else c
  }

  function Lower(s: string): (r: string)
    ensures |r| == |s|
    ensures forall i :: 0 <= i < |s| ==> r[i] == LowerChar(s[i])
  {
    seq(|s|, i requires 0 <= i < |s| => LowerChar(s[i]))
  }

  /** `str.lstrip()`: `s` without its leading whitespace. */
  function TrimLeft(s: string): (r: string)
    ensures |r| <= |s|
    ensures r == [] || !IsSpace(r[0])
  {
    if s != [] && IsSpace(s[0]) then TrimLeft(s[1..]) else s
  }

  /** `str.rstrip()`: `s` without its trailing whitespace. */
  function TrimRight(s: string): (r: string)
    ensures |r| <= |s|
    ensures r == [] || !IsSpace(r[|r| - 1])
  {
    if s != [] && IsSpace(s[|s| - 1]) then TrimRight(s[..|s| - 1]) else s
  }

  /** `str.strip()`: `s` without its leading and trailing whitespace. */
  function Strip(s: string): (r: string)
    ensures IsTrimmed(r)
    ensures r == [] <==> AllSpace(s)
  {
    var t := TrimLeft(s);
    TrimLeftEmpty(s);
    TrimRightEmpty(t);
    TrimRightKeepsFirst(t);
    TrimRight(t)
  }

  lemma {:induction false} TrimLeftEmpty(s: string)
    ensures TrimLeft(s) == [] <==> AllSpace(s)
  {
    if s != [] && IsSpace(s[0]) {
      TrimLeftEmpty(s[1..]);
      assert forall i :: 1 <= i < |s| ==> s[i] == s[1..][i - 1];
    }
  }

  lemma {:induction false} TrimRightEmpty(s: string)
    ensures TrimRight(s) == [] <==> AllSpace(s)
  {
    if s != [] && IsSpace(s[|s| - 1]) {
      TrimRightEmpty(s[..|s| - 1]);
      assert forall i :: 0 <= i < |s| - 1 ==> s[i] == s[..|s| - 1][i];
    }
  }

  lemma {:induction false} TrimRightKeepsFirst(s: string)
    ensures s != [] && !IsSpace(s[0]) ==> TrimRight(s) != [] && TrimRight(s)[0] == s[0]
  {
    if s != [] && !IsSpace(s[0]) && IsSpace(s[|s| - 1]) {
      TrimRightKeepsFirst(s[..|s| - 1]);
    }
  }

  /** `strip` keeps only characters of its input. */
  lemma StripWithin(s: string)
    ensures forall c :: c in Strip(s) ==> c in s
  {
    TrimLeftWithin(s);
    TrimRightWithin(TrimLeft(s));
  }

  lemma {:induction false} TrimLeftWithin(s: string)
    ensures forall c :: c in TrimLeft(s) ==> c in s
  {
    if s != [] && IsSpace(s[0]) {
      TrimLeftWithin(s[1..]);
    }
  }

  lemma {:induction false} TrimRightWithin(s: string)
    ensures forall c :: c in TrimRight(s) ==> c in s
  {
    if s != [] && IsSpace(s[|s| - 1]) {
      TrimRightWithin(s[..|s| - 1]);
    }
  }

  lemma {:induction false} TrimLeftSkips(p: string, t: string)
    requires AllSpace(p)
    requires t == [] || !IsSpace(t[0])
    ensures TrimLeft(p + t) == t
  {
    if p != [] {
      assert (p + t)[1..] == p[1..] + t;
      TrimLeftSkips(p[1..], t);
    }
  }

  lemma {:induction false} TrimRightSkips(t: string, q: string)
    requires AllSpace(q)
    requires t == [] || !IsSpace(t[|t| - 1])
    ensures TrimRight(t + q) == t
  {
    if q != [] {
      var q' := q[..|q| - 1];
      assert (t + q)[..|t + q| - 1] == t + q';
      TrimRightSkips(t, q');
    }
  }

  /** Whitespace around a trimmed text is exactly what `strip` removes. */
  lemma StripPadded(p: string, m: string, q: string)
    requires AllSpace(p) && AllSpace(q) && IsTrimmed(m)
    ensures Strip(p + m + q) == m
  {
    if m == [] {
      assert p + m + q == (p + q) + [];
      TrimLeftSkips(p + q, []);
    } else {
      assert p + m + q == p + (m + q);
      TrimLeftSkips(p, m + q);
      TrimRightSkips(m, q);
    }
  }

  /** `s` is the whitespace `lstrip` removes followed by what it keeps. */
  lemma {:induction false} TrimLeftSplit(s: string) returns (p: string)
    ensures AllSpace(p) && s == p + TrimLeft(s)
  {
    if s != [] && IsSpace(s[0]) {
      var p' := TrimLeftSplit(s[1..]);
      p := [s[0]] + p';
      calc {
        s;
        [s[0]] + s[1..];
        [s[0]] + (p' + TrimLeft(s[1..]));
        p + TrimLeft(s);
      }
    } else {
      p := [];
    }
  }

  /** `s` is what `rstrip` keeps followed by the whitespace it removes. */
  lemma {:induction false} TrimRightSplit(s: string) returns (q: string)
    ensures AllSpace(q) && s == TrimRight(s) + q
  {
    if s != [] && IsSpace(s[|s| - 1]) {
      var q' := TrimRightSplit(s[..|s| - 1]);
      q := q' + [s[|s| - 1]];
      assert s == s[..|s| - 1] + [s[|s| - 1]];
    } else {
      q := [];
    }
  }

  /** `s` is `strip(s)` with whitespace on either side. */
  lemma StripSplits(s: string) returns (p: string, q: string)
    ensures AllSpace(p) && AllSpace(q)
    ensures s == p + Strip(s) + q
  {
    p := TrimLeftSplit(s);
    q := TrimRightSplit(TrimLeft(s));
    assert p + (Strip(s) + q) == p + Strip(s) + q;
  }

  /** Trailing whitespace does not change what `strip` keeps. */
  lemma StripTrailing(y: string, q: string)
    requires AllSpace(q)
    ensures Strip(y + q) == Strip(y)
  {
    var p', q' := StripSplits(y);
    var m := Strip(y);
    assert y + q == p' + m + (q' + q);
    StripPadded(p', m, q' + q);
  }

  /** Length of the leading run of non-whitespace characters of `s`. */
  function WordLen(s: string): (n: nat)
    ensures n <= |s|
    ensures forall i :: 0 <= i < n ==> !IsSpace(s[i])
    ensures n < |s| ==> IsSpace(s[n])
    ensures s != [] && !IsSpace(s[0]) ==> n > 0
  {
    if s == [] || IsSpace(s[0]) then 0 else 1 + WordLen(s[1..])
  }

  /** `str.split()` with no argument: the maximal runs of non-whitespace characters of `s`,
      in order. */
  function Words(s: string): (ws: seq<string>)
    ensures forall w :: w in ws ==> IsWord(w)
    decreases |s|
  {
    if s == [] then []
    else if IsSpace(s[0]) then Words(s[1..])
    else
      var n := WordLen(s);
      [s[..n]] + Words(s[n..])
  }

  /** `[sep].join(ws)` for a one-character separator. */
  function JoinWith(sep: char, ws: seq<string>): string {
    if |ws| == 0 then []
    else if |ws| == 1 then ws[0]
    else ws[0] + [sep] + JoinWith(sep, ws[1..])
  }

  /** `s.split(sep)` for a one-character separator: the pieces between the occurrences of
      `sep`, empty ones included, so there is always at least one piece. */
  function SplitOn(s: string, sep: char): (ps: seq<string>)
    ensures |ps| >= 1
    ensures forall p :: p in ps ==> sep !in p
    ensures JoinWith(sep, ps) == s
  {
    if s == [] then [[]]
    else
      var rest := SplitOn(s[1..], sep);
      if s[0] == sep then
        assert ([[]] + rest)[1..] == rest;
        [[]] + rest
      else
        var ps := [[s[0]] + rest[0]] + rest[1..];
        assert ps[1..] == rest[1..];
        assert |rest| > 1 ==> JoinWith(sep, rest) == rest[0] + [sep] + JoinWith(sep, rest[1..]);
        assert s == [s[0]] + s[1..];
        ps
  }

  /** `s.split(sep, 1)`: the text before the first `sep` and the text after it, or None when
      `s` has no `sep`. */
  function SplitFirst(s: string, sep: char): (r: Option<(string, string)>)
    ensures r.None? <==> sep !in s
    ensures r.Some? ==> s == r.value.0 + [sep] + r.value.1 && sep !in r.value.0
  {
    if s == [] then None
    else if s[0] == sep then Some(([], s[1..]))
    else
      match SplitFirst(s[1..], sep)
      case None => None
      case Some((a, b)) =>
        assert s == [s[0]] + s[1..];
        Some(([s[0]] + a, b))
  }

  /** The first separator is the one `SplitFirst` cuts at, whatever follows it. */
  lemma {:induction false} SplitFirstAt(a: string, sep: char, b: string)
    requires sep !in a
    ensures SplitFirst(a + [sep] + b, sep) == Some((a, b))
  {
    if a != [] {
      assert (a + [sep] + b)[1..] == a[1..] + [sep] + b;
      SplitFirstAt(a[1..], sep, b);
      assert [a[0]] + a[1..] == a;
    }
  }

  /** A text without the separator is one piece. */
  lemma {:induction false} SplitOnWithout(s: string, sep: char)
    requires sep !in s
    ensures SplitOn(s, sep) == [s]
  {
    if s != [] {
      SplitOnWithout(s[1..], sep);
    }
  }

  /** Splitting after a separator-free first piece. */
  lemma {:induction false} SplitOnAfter(a: string, sep: char, b: string)
    requires sep !in a
    ensures SplitOn(a + [sep] + b, sep) == [a] + SplitOn(b, sep)
  {
    if a == [] {
      assert a + [sep] + b == [sep] + b;
      assert ([sep] + b)[1..] == b;
    } else {
      assert (a + [sep] + b)[1..] == a[1..] + [sep] + b;
      SplitOnAfter(a[1..], sep, b);
      assert [a[0]] + a[1..] == a;
    }
  }

  /** `split` undoes `join` when no piece holds the separator. */
  lemma {:induction false} SplitJoin(sep: char, ps: seq<string>)
    requires |ps| >= 1
    requires forall p :: p in ps ==> sep !in p
    ensures SplitOn(JoinWith(sep, ps), sep) == ps
  {
    if |ps| == 1 {
      SplitOnWithout(ps[0], sep);
    } else {
      assert ps[0] in ps;
      assert forall p :: p in ps[1..] ==> p in ps;
      SplitJoin(sep, ps[1..]);
      SplitOnAfter(ps[0], sep, JoinWith(sep, ps[1..]));
      assert [ps[0]] + ps[1..] == ps;
    }
  }

  /** Text without the separator appended to `b` extends the last piece of `b`. */
  lemma SplitOnAppendTail(b: string, sep: char, q: string)
    requires sep !in q
    ensures var ps := SplitOn(b, sep);
            SplitOn(b + q, sep) == ps[..|ps| - 1] + [ps[|ps| - 1] + q]
  {
    var ps := SplitOn(b, sep);
    var ys := ps[..|ps| - 1] + [ps[|ps| - 1] + q];
    JoinWithTail(sep, ps, q);
    assert ps[|ps| - 1] in ps;
    assert forall y :: y in ys ==> y in ps || y == ps[|ps| - 1] + q;
    SplitJoin(sep, ys);
  }

  /** Text appended to a join extends its last piece. */
  lemma {:induction false} JoinWithTail(sep: char, ps: seq<string>, q: string)
    requires |ps| >= 1
    ensures JoinWith(sep, ps) + q == JoinWith(sep, ps[..|ps| - 1] + [ps[|ps| - 1] + q])
  {
    var ys := ps[..|ps| - 1] + [ps[|ps| - 1] + q];
    if |ps| > 1 {
      var tail := ps[1..];
      JoinWithTail(sep, tail, q);
      assert ys[0] == ps[0];
      assert ys[1..] == tail[..|tail| - 1] + [tail[|tail| - 1] + q];
      assert ps[0] + [sep] + JoinWith(sep, tail) + q == ps[0] + [sep] + (JoinWith(sep, tail) + q);
    }
  }

  /** `s.split(sep)` has one piece more than `s` has occurrences of `sep`. */
  lemma {:induction false} SplitOnCount(s: string, sep: char)
    ensures |SplitOn(s, sep)| == multiset(s)[sep] + 1
  {
    if s != [] {
      SplitOnCount(s[1..], sep);
      assert s == [s[0]] + s[1..];
      assert multiset(s) == multiset([s[0]]) + multiset(s[1..]);
    }
  }
}
