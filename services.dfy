/**
 * The business logic between the menu and the store: the normal form of exercise and user
 * names, the parser of an entry line such as `bench press: 135x5, 155x3`, and the two
 * workflows that touch the store, adding the sets of an entry to the active session and
 * logging a user in.
 */
module Services {
  import opened Wrappers
  import opened Text
  import Numeric
  import Db

  // ---------------------------------------------------------------------------------------
  // Names

  /** A name in normal form: no upper-case letter, and every whitespace character is a single
      space between two words. */
  predicate IsNormal(s: string) {
    && NoUpper(s)
    && forall i :: 0 <= i < |s| && IsSpace(s[i]) ==> s[i] == ' ' && 0 < i < |s| - 1 && !IsSpace(s[i + 1])
  }

  /** `normalize_exercise` and `normalize_username`: strip, lower-case, and join the words with
      single spaces. */
  function Normalize(s: string): (r: string)
    ensures IsNormal(r)
    ensures r == [] <==> AllSpace(s)
  {
    var t := Lower(Strip(s));
    var ws := Words(t);
    WordsNoUpper(t);
    JoinWordsNormal(ws);
    WordsEmpty(t);
    assert t != [] ==> !IsSpace(t[0]);
    JoinWith(' ', ws)
  }

  lemma {:induction false} WordsNoUpper(t: string)
    requires NoUpper(t)
    ensures forall w :: w in Words(t) ==> NoUpper(w)
    decreases |t|
  {
    if t != [] {
      if IsSpace(t[0]) {
        WordsNoUpper(t[1..]);
      } else {
        WordsNoUpper(t[WordLen(t)..]);
      }
    }
  }

  /** `split()` finds no word exactly in blank text. */
  lemma {:induction false} WordsEmpty(s: string)
    ensures Words(s) == [] <==> AllSpace(s)
    decreases |s|
  {
    if s != [] {
      if IsSpace(s[0]) {
        WordsEmpty(s[1..]);
        assert forall i :: 1 <= i < |s| ==> s[i] == s[1..][i - 1];
      }
    }
  }

  /** Words joined by single spaces are in normal form, and the join of at least one word is
      not empty. */
  lemma {:induction false} JoinWordsNormal(ws: seq<string>)
    requires forall w :: w in ws ==> IsWord(w) && NoUpper(w)
    ensures IsNormal(JoinWith(' ', ws))
    ensures ws != [] ==> JoinWith(' ', ws) != []
  {
    if |ws| == 1 {
      assert ws[0] in ws;
    } else if |ws| > 1 {
      var w := ws[0];
      assert w in ws;
      assert forall v :: v in ws[1..] ==> v in ws;
      JoinWordsNormal(ws[1..]);
      var j := JoinWith(' ', ws[1..]);
      var s := w + [' '] + j;
      assert s == JoinWith(' ', ws);
      forall i | 0 <= i < |s| ensures !IsUpper(s[i]) {
        if i < |w| { assert s[i] == w[i]; }
        else if i > |w| { assert s[i] == j[i - |w| - 1]; }
      }
      assert forall i :: 0 <= i < |w| ==> s[i] == w[i];
      forall i | 0 <= i < |s| && IsSpace(s[i]) ensures s[i] == ' ' && 0 < i < |s| - 1 && !IsSpace(s[i + 1]) {
        if i == |w| {
          assert s[i + 1] == j[0];
        } else if i > |w| {
          var k := i - |w| - 1;
          assert s[i] == j[k];
          assert s[i + 1] == j[k + 1];
        }
      }
    }
  }

  /** A text in normal form is its own normal form, and nothing else is. */
  lemma NormalizeFixedPoints(t: string)
    ensures Normalize(t) == t <==> IsNormal(t)
  {
    if IsNormal(t) {
      assert t != [] ==> !IsSpace(t[0]) && !IsSpace(t[|t| - 1]);
      StripTrimmed(t);
      LowerNoUpper(t);
      JoinWordsOfNormal(t);
    }
  }

  /** Normalising twice is normalising once. */
  lemma NormalizeIdempotent(s: string)
    ensures Normalize(Normalize(s)) == Normalize(s)
  {
    NormalizeFixedPoints(Normalize(s));
  }

  /** The normal form is the sequence of the words of the lower-cased text, in order, joined
      by single spaces: the surrounding whitespace `strip` removes is whitespace `split()`
      drops anyway. */
  lemma NormalizeIsLowerWords(s: string)
    ensures Normalize(s) == JoinWith(' ', Words(Lower(s)))
    ensures Words(Normalize(s)) == Words(Lower(s))
  {
    var t := Lower(Strip(s));
    StripWords(s);
    WordsOfJoin(Words(t));
    NormalizeFixedPoints(Normalize(s));
    JoinWordsOfNormal(Normalize(s));
  }

  lemma StripTrimmed(t: string)
    requires IsTrimmed(t)
    ensures Strip(t) == t
  {
    assert [] + t + [] == t;
    StripPadded([], t, []);
  }

  lemma LowerNoUpper(t: string)
    requires NoUpper(t)
    ensures Lower(t) == t
  {
  }

  lemma LowerAppend(a: string, b: string)
    ensures Lower(a + b) == Lower(a) + Lower(b)
  {
  }

  lemma LowerAllSpace(a: string)
    requires AllSpace(a)
    ensures AllSpace(Lower(a))
  {
  }

  /** A text in normal form is its words joined by single spaces. */
  lemma {:induction false} JoinWordsOfNormal(t: string)
    requires IsNormal(t)
    ensures JoinWith(' ', Words(t)) == t
    decreases |t|
  {
    if t != [] {
      var n := WordLen(t);
      if n == |t| {
        assert t[n..] == [];
        assert t[..n] == t;
      } else {
        var u := t[n + 1..];
        NormalAfterFirstWord(t, n);
        JoinWordsOfNormal(u);
        var ws := Words(t);
        assert ws[1..] == Words(u);
      }
    }
  }

  lemma SplitAround(t: string, n: nat)
    requires n < |t|
    ensures t == t[..n] + [t[n]] + t[n + 1..]
  {
  }

  /** In normal form, the first word is followed by one space and the normal rest. */
  lemma NormalAfterFirstWord(t: string, n: nat)
    requires IsNormal(t) && t != [] && n == WordLen(t) < |t|
    ensures IsNormal(t[n + 1..]) && t[n + 1..] != []
    ensures t == t[..n] + [' '] + t[n + 1..]
    ensures Words(t) == [t[..n]] + Words(t[n + 1..])
    ensures Words(t[n + 1..]) != []
  {
    assert IsSpace(t[n]) && !IsSpace(t[0]);
    NormalTail(t, n);
    SplitAround(t, n);
    WordsAfterSpace(t, n);
    WordsEmpty(t[n + 1..]);
  }

  lemma NormalTail(t: string, n: nat)
    requires IsNormal(t) && n < |t| && IsSpace(t[n])
    ensures t[n] == ' ' && IsNormal(t[n + 1..]) && t[n + 1..] != [] && !AllSpace(t[n + 1..])
  {
    assert t[n] == ' ' && n + 1 < |t| && !IsSpace(t[n + 1]);
    var u := t[n + 1..];
    assert forall j :: 0 <= j < |u| ==> u[j] == t[n + 1 + j];
    assert !IsSpace(u[0]);
    forall i | 0 <= i < |u| && IsSpace(u[i]) ensures u[i] == ' ' && 0 < i < |u| - 1 && !IsSpace(u[i + 1]) {
      assert u[i] == t[n + 1 + i];
    }
  }

  lemma WordsAfterSpace(t: string, n: nat)
    requires t != [] && !IsSpace(t[0]) && n == WordLen(t) < |t|
    ensures Words(t) == [t[..n]] + Words(t[n + 1..])
  {
    var r := t[n..];
    assert Words(t) == [t[..n]] + Words(r);
    assert r != [] && IsSpace(r[0]);
    assert r[1..] == t[n + 1..];
  }

  /** `split()` undoes the join of words by single spaces. */
  lemma {:induction false} WordsOfJoin(ws: seq<string>)
    requires forall w :: w in ws ==> IsWord(w)
    ensures Words(JoinWith(' ', ws)) == ws
  {
    if |ws| == 1 {
      assert ws[0] in ws;
      WordsAfterWord(ws[0], []);
      assert ws[0] + [] == ws[0];
    } else if |ws| > 1 {
      assert ws[0] in ws;
      assert forall v :: v in ws[1..] ==> v in ws;
      WordsOfJoin(ws[1..]);
      assert [ws[0]] + ws[1..] == ws;
      WordsOfJoinCons(ws[0], ws[1..]);
    }
  }

  /** One more word in front of a join that `split()` undoes. */
  lemma WordsOfJoinCons(w: string, ws: seq<string>)
    requires IsWord(w) && ws != []
    requires Words(JoinWith(' ', ws)) == ws
    ensures Words(JoinWith(' ', [w] + ws)) == [w] + ws
  {
    var j := JoinWith(' ', ws);
    assert ([w] + ws)[1..] == ws;
    assert JoinWith(' ', [w] + ws) == w + ([' '] + j);
    WordsAfterWord(w, [' '] + j);
    WordsSpacePrefix([' '], j);
  }

  /** A word followed by whitespace or by nothing is the first word `split()` finds. */
  lemma WordsAfterWord(w: string, rest: string)
    requires IsWord(w)
    requires rest == [] || IsSpace(rest[0])
    ensures Words(w + rest) == [w] + Words(rest)
  {
    WordLenOfWord(w, rest);
    assert (w + rest)[..|w|] == w;
    assert (w + rest)[|w|..] == rest;
  }

  lemma {:induction false} WordLenOfWord(w: string, rest: string)
    requires forall i :: 0 <= i < |w| ==> !IsSpace(w[i])
    requires rest == [] || IsSpace(rest[0])
    ensures WordLen(w + rest) == |w|
  {
    if w != [] {
      assert (w + rest)[1..] == w[1..] + rest;
      WordLenOfWord(w[1..], rest);
    } else {
      assert w + rest == rest;
    }
  }

  /** `strip` changes nothing that `split()` sees, before or after lower-casing. */
  lemma StripWords(s: string)
    ensures Words(Lower(Strip(s))) == Words(Lower(s))
  {
    TrimLeftWords(s);
    TrimRightWords(TrimLeft(s));
  }

  lemma {:induction false} TrimLeftWords(s: string)
    ensures Words(Lower(TrimLeft(s))) == Words(Lower(s))
  {
    if s != [] && IsSpace(s[0]) {
      TrimLeftWords(s[1..]);
      assert Lower(s)[1..] == Lower(s[1..]);
    }
  }

  lemma {:induction false} TrimRightWords(s: string)
    ensures Words(Lower(TrimRight(s))) == Words(Lower(s))
  {
    if s != [] && IsSpace(s[|s| - 1]) {
      var p := s[..|s| - 1];
      TrimRightWords(p);
      assert TrimRight(s) == TrimRight(p);
      TrailingSpaceWords(p, s);
    }
  }

  lemma TrailingSpaceWords(p: string, s: string)
    requires |s| == |p| + 1 && p == s[..|p|] && IsSpace(s[|p|])
    ensures Words(Lower(s)) == Words(Lower(p))
  {
    var c := [LowerChar(s[|p|])];
    assert Lower(s) == Lower(p) + c;
    WordsSpaceSuffix(Lower(p), c);
  }

  lemma {:induction false} WordsSpacePrefix(p: string, x: string)
    requires AllSpace(p)
    ensures Words(p + x) == Words(x)
  {
    if p != [] {
      assert (p + x)[1..] == p[1..] + x;
      WordsSpacePrefix(p[1..], x);
    } else {
      assert p + x == x;
    }
  }

  lemma {:induction false} WordsSpaceSuffix(x: string, q: string)
    requires AllSpace(q)
    ensures Words(x + q) == Words(x)
    decreases |x|
  {
    if x == [] {
      assert x + q == q;
      WordsEmpty(q);
    } else if IsSpace(x[0]) {
      assert (x + q)[1..] == x[1..] + q;
      WordsSpaceSuffix(x[1..], q);
    } else {
      var n := WordLen(x);
      WordLenOfWord(x[..n], x[n..] + q);
      assert x + q == x[..n] + (x[n..] + q);
      assert (x + q)[..n] == x[..n];
      assert (x + q)[n..] == x[n..] + q;
      WordsSpaceSuffix(x[n..], q);
    }
  }

  // ---------------------------------------------------------------------------------------
  // Entry lines

  /** Why an entry line or one of its set tokens is refused (a `ValueError` in each case). */
  datatype ParseError =
    | MissingColon     // no `:` after the exercise name
    | MissingExercise  // only whitespace before the `:`
    | NoSets           // no non-blank piece after the `:`
    | NotWeightByReps  // the token does not split into exactly two parts at `x`
    | InvalidNumbers   // a part is not a number
    | NotPositive      // a negative weight, or fewer than one rep

  /** A parsed entry line: the normalised exercise name and its set tokens. */
  datatype Entry = Entry(exercise: string, tokens: seq<string>)

  /** The pieces, each stripped, the blank ones dropped, in order. */
  function Tokens(pieces: seq<string>): (ts: seq<string>)
    ensures |ts| <= |pieces|
    ensures forall t :: t in ts ==> t != [] && IsTrimmed(t)
  {
    if pieces == [] then []
    else
      var t := Strip(pieces[0]);
      (if t == [] then [] else [t]) + Tokens(pieces[1..])
  }

  /** A character no piece holds is in no token. */
  lemma {:induction false} TokensAvoid(pieces: seq<string>, c: char)
    requires forall p :: p in pieces ==> c !in p
    ensures forall t :: t in Tokens(pieces) ==> c !in t
  {
    if pieces != [] {
      assert pieces[0] in pieces;
      assert forall p :: p in pieces[1..] ==> p in pieces;
      TokensAvoid(pieces[1..], c);
      StripWithin(pieces[0]);
    }
  }

  /** `parse_entry_line`: the normalised name before the first `:`, and the non-blank
      comma-separated pieces after it, stripped. */
  function ParseEntryLine(raw: string): (r: Result<Entry, ParseError>)
    ensures r == Err(MissingColon) <==> ':' !in raw
    ensures r.Ok? ==> r.value.exercise != [] && IsNormal(r.value.exercise)
    ensures r.Ok? ==> r.value.tokens != [] && forall t :: t in r.value.tokens ==> t != [] && IsTrimmed(t) && ',' !in t
  {
    match SplitFirst(raw, ':')
    case None => Err(MissingColon)
    case Some((name, sets)) =>
      var exercise := Normalize(name);
      if exercise == [] then Err(MissingExercise)
      else
        var tokens := Tokens(SplitOn(sets, ','));
        TokensAvoid(SplitOn(sets, ','), ',');
        if tokens == [] then Err(NoSets) else Ok(Entry(exercise, tokens))
  }

  /** Only the first `:` splits: the name is what precedes it, and any later `:` is part of
      the text the tokens are cut from. */
  lemma ParseEntryLineAt(name: string, sets: string)
    requires ':' !in name
    ensures ParseEntryLine(name + [':'] + sets) ==
      if AllSpace(name) then Err(MissingExercise)
      else if Tokens(SplitOn(sets, ',')) == [] then Err(NoSets)
      else Ok(Entry(Normalize(name), Tokens(SplitOn(sets, ','))))
  {
    SplitFirstAt(name, ':', sets);
  }

  /** Whitespace around an entry line changes nothing of what it parses to; so stripping the
      line first, as `add_set_ui` does, parses it the same way. */
  lemma ParseEntryLineStrip(raw: string)
    ensures ParseEntryLine(Strip(raw)) == ParseEntryLine(raw)
  {
    var p, q := StripSplits(raw);
    ParseEntryLinePadded(p, Strip(raw), q);
  }

  lemma ParseEntryLinePadded(p: string, m: string, q: string)
    requires AllSpace(p) && AllSpace(q)
    ensures ParseEntryLine(p + m + q) == ParseEntryLine(m)
  {
    assert forall c :: c in p + m + q ==> c in p || c in m || c in q;
    assert !IsSpace(':');
    if ':' in m {
      var a, b := SplitFirst(m, ':').value.0, SplitFirst(m, ':').value.1;
      assert p + m + q == (p + a) + [':'] + (b + q);
      assert ':' !in p + a by { assert forall c :: c in p + a ==> c in p || c in a; }
      ParseEntryLineAt(p + a, b + q);
      ParseEntryLineAt(a, b);
      AllSpaceAfterSpace(p, a);
      NormalizeSpacePrefix(p, a);
      TokensPaddedTail(b, q);
    }
  }

  lemma AllSpaceAfterSpace(p: string, a: string)
    requires AllSpace(p)
    ensures AllSpace(p + a) <==> AllSpace(a)
  {
    assert forall i :: 0 <= i < |a| ==> (p + a)[|p| + i] == a[i];
  }

  /** Leading whitespace does not change the normal form. */
  lemma NormalizeSpacePrefix(p: string, a: string)
    requires AllSpace(p)
    ensures Normalize(p + a) == Normalize(a)
  {
    NormalizeIsLowerWords(p + a);
    NormalizeIsLowerWords(a);
    LowerAppend(p, a);
    LowerAllSpace(p);
    WordsSpacePrefix(Lower(p), Lower(a));
  }

  /** Trailing whitespace after the last comma-separated piece changes no token. */
  lemma TokensPaddedTail(b: string, q: string)
    requires AllSpace(q)
    ensures Tokens(SplitOn(b + q, ',')) == Tokens(SplitOn(b, ','))
  {
    assert ',' !in q by { assert !IsSpace(','); }
    var ps := SplitOn(b, ',');
    var xs := ps[..|ps| - 1];
    var y := ps[|ps| - 1];
    SplitOnAppendTail(b, ',', q);
    LastSplit(ps);
    TokensAppend(xs, [y + q]);
    TokensAppend(xs, [y]);
    StripTrailing(y, q);
    TokensOne(y);
    TokensOne(y + q);
  }

  lemma LastSplit(ps: seq<string>)
    requires |ps| >= 1
    ensures ps == ps[..|ps| - 1] + [ps[|ps| - 1]]
  {
  }

  lemma TokensOne(y: string)
    ensures Tokens([y]) == if Strip(y) == [] then [] else [Strip(y)]
  {
    assert [y][1..] == [];
  }

  lemma {:induction false} TokensAppend(xs: seq<string>, ys: seq<string>)
    ensures Tokens(xs + ys) == Tokens(xs) + Tokens(ys)
  {
    if xs != [] {
      assert (xs + ys)[1..] == xs[1..] + ys;
      TokensAppend(xs[1..], ys);
    } else {
      assert xs + ys == ys;
    }
  }

  /** Each token after a space, the way an entry is usually typed (`135x5, 155x3`). */
  function Spaced(tokens: seq<string>): (ps: seq<string>)
    ensures |ps| == |tokens|
  {
    seq(|tokens|, i requires 0 <= i < |tokens| => [' '] + tokens[i])
  }

  /** An entry typed as `name: t1, t2, ...` parses back to its normalised name and exactly its
      tokens, in order. */
  lemma ParseEntryLineFormat(name: string, tokens: seq<string>)
    requires ':' !in name && !AllSpace(name)
    requires tokens != []
    requires forall t :: t in tokens ==> t != [] && IsTrimmed(t) && ',' !in t
    ensures ParseEntryLine(name + [':'] + JoinWith(',', Spaced(tokens))) == Ok(Entry(Normalize(name), tokens))
  {
    var ps := Spaced(tokens);
    forall p | p in ps ensures ',' !in p {
      var i :| 0 <= i < |ps| && ps[i] == p;
      assert tokens[i] in tokens;
    }
    SplitJoin(',', ps);
    TokensOfSpaced(tokens);
    ParseEntryLineAt(name, JoinWith(',', ps));
  }

  lemma {:induction false} TokensOfSpaced(tokens: seq<string>)
    requires forall t :: t in tokens ==> t != [] && IsTrimmed(t)
    ensures Tokens(Spaced(tokens)) == tokens
  {
    if tokens != [] {
      var t := tokens[0];
      assert t in tokens;
      assert forall u :: u in tokens[1..] ==> u in tokens;
      TokensOfSpaced(tokens[1..]);
      assert Spaced(tokens)[1..] == Spaced(tokens[1..]);
      assert [' '] + t + [] == Spaced(tokens)[0];
      StripPadded([' '], t, []);
      assert [t] + tokens[1..] == tokens;
    }
  }

  /** The example of the test suite: `Bench press: 135x5, 155x3`. */
  lemma ParseEntryLineExample()
    ensures ParseEntryLine("Bench press: 135x5, 155x3") == Ok(Entry("bench press", ["135x5", "155x3"]))
  {
    var tokens := ["135x5", "155x3"];
    assert JoinWith(',', Spaced(tokens)) == " 135x5, 155x3";
    assert "Bench press: 135x5, 155x3" == "Bench press" + [':'] + " 135x5, 155x3";
    assert !IsSpace("Bench press"[0]);
    ParseEntryLineFormat("Bench press", tokens);
    NormalizeExample();
  }

  lemma NormalizeExample()
    ensures Normalize("Bench press") == "bench press"
  {
    var t := "bench press";
    ExampleNameNormal();
    NormalizeFixedPoints(t);
    LowerNoUpper(t);
    NormalizeIsLowerWords(t);
    ExampleNameLower();
    NormalizeIsLowerWords("Bench press");
  }

  lemma ExampleNameNormal()
    ensures IsNormal("bench press")
  {
    var t := "bench press";
    assert forall i :: 0 <= i < |t| && IsSpace(t[i]) ==> i == 5;
  }

  lemma ExampleNameLower()
    ensures Lower("Bench press") == "bench press"
  {
  }

  // ---------------------------------------------------------------------------------------
  // Set tokens

  /** A parsed set token. */
  datatype WeightReps = WeightReps(weight: real, reps: int)

  /** `parse_set_token`: the weight before the one `x` and the rep count after it, each
      stripped; a negative weight or fewer than one rep is refused. */
  function ParseSetToken(token: string): (r: Result<WeightReps, ParseError>)
    ensures r.Ok? ==> r.value.weight >= 0.0 && r.value.reps >= 1
  {
    var parts := SplitOn(token, 'x');
    if |parts| != 2 then Err(NotWeightByReps)
    else
      match (Numeric.ParseFloat(Strip(parts[0])), Numeric.ParseInt(Strip(parts[1])))
      case (Some(w), Some(n)) => if w < 0.0 || n <= 0 then Err(NotPositive) else Ok(WeightReps(w, n))
      case _ => Err(InvalidNumbers)
  }

  /** A token is refused for its shape exactly when it does not hold exactly one `x`; an
      upper-case `X` does not count. */
  lemma ParseSetTokenNeedsOneX(token: string)
    ensures ParseSetToken(token) == Err(NotWeightByReps) <==> multiset(token)['x'] != 1
  {
    SplitOnCount(token, 'x');
  }

  /** Whitespace around either number is tolerated: a token written from a weight and a rep
      count parses back to them. */
  lemma ParseSetTokenFormat(weight: nat, reps: nat, a: string, b: string, c: string, d: string)
    requires reps >= 1 && |Numeric.ShowNat(reps)| <= Numeric.MaxIntDigits
    requires AllSpace(a) && AllSpace(b) && AllSpace(c) && AllSpace(d)
    ensures ParseSetToken((a + Numeric.ShowNat(weight) + b) + ['x'] + (c + Numeric.ShowNat(reps) + d))
            == Ok(WeightReps(weight as real, reps))
  {
    PaddedNumber(a, Numeric.ShowNat(weight), b);
    PaddedNumber(c, Numeric.ShowNat(reps), d);
    Numeric.ParseFloatShow(weight);
    Numeric.ParseIntShow(reps);
    ParseSetTokenAt(a + Numeric.ShowNat(weight) + b, c + Numeric.ShowNat(reps) + d);
  }

  /** A number with whitespace around it holds no `x`, and `strip` recovers the number. */
  lemma PaddedNumber(a: string, w: string, b: string)
    requires AllSpace(a) && AllSpace(b) && w != [] && Numeric.AllDigits(w)
    ensures 'x' !in a + w + b
    ensures Strip(a + w + b) == w
  {
    assert forall i :: 0 <= i < |a + w + b| ==> IsSpace((a + w + b)[i]) || Numeric.IsDigit((a + w + b)[i]);
    StripPadded(a, w, b);
  }

  /** A token with one `x` is judged by the two texts around it. */
  lemma ParseSetTokenAt(left: string, right: string)
    requires 'x' !in left && 'x' !in right
    ensures ParseSetToken(left + ['x'] + right) ==
      match (Numeric.ParseFloat(Strip(left)), Numeric.ParseInt(Strip(right)))
      case (Some(w), Some(n)) => if w < 0.0 || n <= 0 then Err(NotPositive) else Ok(WeightReps(w, n))
      case _ => Err(InvalidNumbers)
  {
    SplitOnAfter(left, 'x', right);
    SplitOnWithout(right, 'x');
  }

  /** The example of the test suite: ` 135 x 5 ` is 135 pounds for 5 reps. */
  lemma ParseSetTokenPaddedExample()
    ensures ParseSetToken(" 135 x 5 ") == Ok(WeightReps(135.0, 5))
  {
    assert Numeric.ShowNat(135) == "135";
    assert Numeric.ShowNat(5) == "5";
    assert " 135 x 5 " == (" " + "135" + " ") + ['x'] + (" " + "5" + " ");
    ParseSetTokenFormat(135, 5, " ", " ", " ", " ");
  }

  /** The examples of the test suite: a token missing either number is refused. */
  lemma ParseSetTokenNoRepsExample()
    ensures ParseSetToken("135x") == Err(InvalidNumbers)
  {
    assert "135x" == "135" + ['x'] + [];
    assert Strip([]) == [];
    ParseSetTokenAt("135", []);
  }

  lemma ParseSetTokenNoWeightExample()
    ensures ParseSetToken("x5") == Err(InvalidNumbers)
  {
    assert "x5" == [] + ['x'] + "5";
    assert Strip([]) == [];
    ParseSetTokenAt([], "5");
  }

  // ---------------------------------------------------------------------------------------
  // Adding the sets of an entry

  /** The lifter's answer to "Mark <exercise> at <weight> lb as tested 1RM?", asked about the
      token at `position` of the entry. The position lets the same question get different
      answers within one entry, as a person at the prompt may give them. */
  type Oracle = (nat, string, real) -> bool

  /** The row a parsed token becomes: flagged as a tested 1RM only for a single rep that the
      lifter confirms. */
  function RowFor(exercise: string, position: nat, parsed: WeightReps, askIsOneRm: Oracle): Db.SetRow {
    Db.SetRow(parsed.weight, parsed.reps, if parsed.reps == 1 && askIsOneRm(position, exercise, parsed.weight) then 1 else 0)
  }

  /** The rows built from the tokens up to the first invalid one, and that token's error. */
  datatype Built = Built(rows: seq<Db.SetRow>, failure: Option<ParseError>)

  /** The loop of `add_sets_from_entry`: every token parsed in order into a row, stopping at
      the first token that is refused. */
  function BuildRows(exercise: string, tokens: seq<string>, askIsOneRm: Oracle): (b: Built)
    ensures |b.rows| <= |tokens|
    ensures b.failure.None? ==> |b.rows| == |tokens|
  {
    if tokens == [] then Built([], None)
    else
      var b := BuildRows(exercise, tokens[..|tokens| - 1], askIsOneRm);
      if b.failure.Some? then b
      else
        match ParseSetToken(tokens[|tokens| - 1])
        case Err(e) => Built(b.rows, Some(e))
        case Ok(parsed) => Built(b.rows + [RowFor(exercise, |tokens| - 1, parsed, askIsOneRm)], None)
  }

  /** `row` is what `token` says, flagged as a tested 1RM exactly when it is a single rep the
      lifter confirms. */
  predicate RowOf(exercise: string, position: nat, token: string, askIsOneRm: Oracle, row: Db.SetRow) {
    && ParseSetToken(token) == Ok(WeightReps(row.weight, row.reps))
    && (row.isOneRm == 1 <==> row.reps == 1 && askIsOneRm(position, exercise, row.weight))
    && Db.Admissible(row)
  }

  /** Row `k` is the row of token `k`. */
  lemma {:induction false} BuildRowsRows(exercise: string, tokens: seq<string>, askIsOneRm: Oracle)
    ensures var b := BuildRows(exercise, tokens, askIsOneRm);
            forall k :: 0 <= k < |b.rows| ==> RowOf(exercise, k, tokens[k], askIsOneRm, b.rows[k])
  {
    if tokens != [] {
      var p := tokens[..|tokens| - 1];
      BuildRowsRows(exercise, p, askIsOneRm);
      var b := BuildRows(exercise, p, askIsOneRm);
      if b.failure.None? {
        match ParseSetToken(tokens[|tokens| - 1])
        case Err(e) =>
          assert BuildRows(exercise, tokens, askIsOneRm) == Built(b.rows, Some(e));
          assert forall k :: 0 <= k < |p| ==> p[k] == tokens[k];
        case Ok(parsed) =>
          var n := |tokens| - 1;
          var row := RowFor(exercise, n, parsed, askIsOneRm);
          var rows := b.rows + [row];
          assert |b.rows| == n;
          assert BuildRows(exercise, tokens, askIsOneRm) == Built(rows, None);
          assert RowOf(exercise, n, tokens[n], askIsOneRm, row);
          forall k | 0 <= k < |rows| ensures RowOf(exercise, k, tokens[k], askIsOneRm, rows[k]) {
            if k < n {
              assert rows[k] == b.rows[k] && tokens[k] == p[k];
            }
          }
      } else {
        assert forall k :: 0 <= k < |p| ==> p[k] == tokens[k];
      }
    }
  }

  /** A failure is the error of the token after the last row. */
  lemma {:induction false} BuildRowsFailure(exercise: string, tokens: seq<string>, askIsOneRm: Oracle)
    ensures var b := BuildRows(exercise, tokens, askIsOneRm);
            b.failure.Some? ==> |b.rows| < |tokens| && ParseSetToken(tokens[|b.rows|]) == Err(b.failure.value)
  {
    if tokens != [] {
      var p := tokens[..|tokens| - 1];
      BuildRowsFailure(exercise, p, askIsOneRm);
      var b := BuildRows(exercise, p, askIsOneRm);
      if b.failure.Some? {
        assert tokens[|b.rows|] == p[|b.rows|];
      }
    }
  }

  /** Once a token is refused, the tokens after it change nothing. */
  lemma {:induction false} BuildRowsStops(exercise: string, tokens: seq<string>, j: nat, askIsOneRm: Oracle)
    requires j <= |tokens|
    requires BuildRows(exercise, tokens[..j], askIsOneRm).failure.Some?
    ensures BuildRows(exercise, tokens, askIsOneRm) == BuildRows(exercise, tokens[..j], askIsOneRm)
    decreases |tokens|
  {
    if j < |tokens| {
      var p := tokens[..|tokens| - 1];
      assert p[..j] == tokens[..j];
      BuildRowsStops(exercise, p, j, askIsOneRm);
    } else {
      assert tokens[..j] == tokens;
    }
  }

  /** The weights of the single-rep rows, in order: the questions put to the lifter. */
  function OneRepWeights(rows: seq<Db.SetRow>): (ws: seq<real>)
    ensures |ws| <= |rows|
  {
    if rows == [] then []
    else
      var last := rows[|rows| - 1];
      OneRepWeights(rows[..|rows| - 1]) + (if last.reps == 1 then [last.weight] else [])
  }

  /** The `for token in tokens` loop: parses the tokens in order into rows, asking
      `askIsOneRm` about each single rep, and stops at the first token that is refused.
      `asked` lists the weights asked about. */
  method CollectRows(exercise: string, tokens: seq<string>, askIsOneRm: Oracle)
    returns (b: Built, asked: seq<real>)
    ensures b == BuildRows(exercise, tokens, askIsOneRm)
    ensures asked == OneRepWeights(b.rows)
  {
    var rows: seq<Db.SetRow> := [];
    asked := [];
    var i := 0;
    while i < |tokens|
      invariant 0 <= i <= |tokens|
      invariant BuildRows(exercise, tokens[..i], askIsOneRm) == Built(rows, None)
      invariant asked == OneRepWeights(rows)
    {
      assert tokens[..i + 1][..i] == tokens[..i];
      var parsed := ParseSetToken(tokens[i]);
      if parsed.Err? {
        BuildRowsStops(exercise, tokens, i + 1, askIsOneRm);
        return Built(rows, Some(parsed.error)), asked;
      }
      var isOneRm := 0;
      if parsed.value.reps == 1 {
        asked := asked + [parsed.value.weight];
        if askIsOneRm(i, exercise, parsed.value.weight) {
          isOneRm := 1;
        }
      }
      rows := rows + [Db.SetRow(parsed.value.weight, parsed.value.reps, isOneRm)];
      i := i + 1;
    }
    assert tokens[..i] == tokens;
    b := Built(rows, None);
  }

  /** What an entry line comes to before anything is stored: the exercise and the rows of all
      its tokens, or the first error of the line or of one of its tokens. */
  function EntryRows(rawEntry: string, askIsOneRm: Oracle): (r: Result<(string, seq<Db.SetRow>), ParseError>)
    ensures r.Ok? ==> r.value.1 != [] && forall k :: 0 <= k < |r.value.1| ==> Db.Admissible(r.value.1[k])
  {
    match ParseEntryLine(rawEntry)
    case Err(e) => Err(e)
    case Ok(entry) =>
      var b := BuildRows(entry.exercise, entry.tokens, askIsOneRm);
      BuildRowsRows(entry.exercise, entry.tokens, askIsOneRm);
      if b.failure.Some? then Err(b.failure.value) else Ok((entry.exercise, b.rows))
  }

  /** The weights the lifter is asked about while an entry line is parsed. */
  function EntryQuestions(rawEntry: string, askIsOneRm: Oracle): seq<real> {
    match ParseEntryLine(rawEntry)
    case Err(_) => []
    case Ok(entry) => OneRepWeights(BuildRows(entry.exercise, entry.tokens, askIsOneRm).rows)
  }

  /** An entry yields rows exactly when its line parses and every one of its tokens does: one
      row per token, in order, with the token's weight and reps; otherwise the error is the
      line's or that of its first refused token. */
  lemma EntryRowsMeaning(rawEntry: string, askIsOneRm: Oracle)
    ensures EntryRows(rawEntry, askIsOneRm).Ok? <==>
              ParseEntryLine(rawEntry).Ok? && var tokens := ParseEntryLine(rawEntry).value.tokens;
              forall k :: 0 <= k < |tokens| ==> ParseSetToken(tokens[k]).Ok?
    ensures EntryRows(rawEntry, askIsOneRm).Ok? ==>
              var entry := ParseEntryLine(rawEntry).value;
              var rows := EntryRows(rawEntry, askIsOneRm).value.1;
              && EntryRows(rawEntry, askIsOneRm).value.0 == entry.exercise
              && |rows| == |entry.tokens|
              && forall k :: 0 <= k < |rows| ==> RowOf(entry.exercise, k, entry.tokens[k], askIsOneRm, rows[k])
    ensures ParseEntryLine(rawEntry).Err? ==> EntryRows(rawEntry, askIsOneRm) == Err(ParseEntryLine(rawEntry).error)
    ensures ParseEntryLine(rawEntry).Ok? && EntryRows(rawEntry, askIsOneRm).Err? ==>
              var tokens := ParseEntryLine(rawEntry).value.tokens;
              exists k :: 0 <= k < |tokens| && ParseSetToken(tokens[k]) == Err(EntryRows(rawEntry, askIsOneRm).error)
                && forall i :: 0 <= i < k ==> ParseSetToken(tokens[i]).Ok?
  {
    var line := ParseEntryLine(rawEntry);
    if line.Ok? {
      var tokens := line.value.tokens;
      var b := BuildRows(line.value.exercise, tokens, askIsOneRm);
      BuildRowsRows(line.value.exercise, tokens, askIsOneRm);
      BuildRowsFailure(line.value.exercise, tokens, askIsOneRm);
      if b.failure.Some? {
        var k := |b.rows|;
        assert ParseSetToken(tokens[k]) == Err(EntryRows(rawEntry, askIsOneRm).error);
        assert forall i :: 0 <= i < k ==> ParseSetToken(tokens[i]).Ok?;
      }
    }
  }

  /** The lifter is asked once for each single-rep row, about its weight. */
  lemma {:induction false} OneRepWeightsMembers(rows: seq<Db.SetRow>)
    ensures forall w :: w in OneRepWeights(rows) <==> exists k :: 0 <= k < |rows| && rows[k].reps == 1 && rows[k].weight == w
  {
    if rows != [] {
      var p := rows[..|rows| - 1];
      OneRepWeightsMembers(p);
      assert forall k :: 0 <= k < |p| ==> p[k] == rows[k];
    }
  }

  /** Stripping the line first changes neither the rows nor the questions. */
  lemma EntryOfStripped(rawEntry: string, askIsOneRm: Oracle)
    ensures EntryRows(Strip(rawEntry), askIsOneRm) == EntryRows(rawEntry, askIsOneRm)
    ensures EntryQuestions(Strip(rawEntry), askIsOneRm) == EntryQuestions(rawEntry, askIsOneRm)
  {
    ParseEntryLineStrip(rawEntry);
  }

  /** The parsing half of `add_sets_from_entry`: the line, then every token in order. */
  method ParseEntry(rawEntry: string, askIsOneRm: Oracle)
    returns (r: Result<(string, seq<Db.SetRow>), ParseError>, asked: seq<real>)
    ensures r == EntryRows(rawEntry, askIsOneRm)
    ensures asked == EntryQuestions(rawEntry, askIsOneRm)
  {
    var line := ParseEntryLine(rawEntry);
    if line.Err? {
      return Err(line.error), [];
    }
    var built;
    built, asked := CollectRows(line.value.exercise, line.value.tokens, askIsOneRm);
    if built.failure.Some? {
      return Err(built.failure.value), asked;
    }
    r := Ok((line.value.exercise, built.rows));
  }

  /** Why adding an entry fails. */
  datatype AddError =
    | NoActiveSession                         // `NoActiveSessionError`
    | BadEntry(reason: ParseError)            // a `ValueError` of the parser
    | StorageFailure(cause: Db.StorageError)  // a `sqlite3.Error`, after the rollback
    | RepsOutOfRange                          // an `OverflowError` binding a rep count of 2^63 or
                                              // more: no handler catches it, the `with` block
                                              // rolls the transaction back and it escapes

  /** `add_sets_from_entry`: with the user's active session, parses the entry and stores its
      rows (`InsertEntry`); without one, fails before parsing and asks nothing. */
  method AddSetsFromEntry(db: Db.Store, userId: nat, rawEntry: string, askIsOneRm: Oracle, fault: bool)
    returns (r: Result<(string, nat), AddError>, asked: seq<real>)
    requires db.Valid()
    modifies db
    ensures db.Valid()
    ensures db.users == old(db.users) && db.sessions == old(db.sessions)
    ensures db.lastUserId == old(db.lastUserId) && db.lastSessionId == old(db.lastSessionId)
    ensures r.Err? ==> db.sets == old(db.sets) && db.lastSetId == old(db.lastSetId)
    ensures old(db.ActiveSession(userId)).None? ==> r == Err(NoActiveSession) && asked == []
    ensures old(db.ActiveSession(userId)).Some? ==> Stored(old(db.sets), old(db.lastSetId), db.sets, db.lastSetId, old(db.ActiveSession(userId)).value, rawEntry, askIsOneRm, fault, r, asked)
  {
    var sessionId := db.ActiveSession(userId);
    if sessionId.None? {
      return Err(NoActiveSession), [];
    }
    r, asked := InsertEntry(db, sessionId.value, rawEntry, askIsOneRm, fault);
  }

  /** What parsing an entry and inserting its rows into the session `sessionId` leads to, from
      the sets table `sets` and its counter `lastSetId` to `sets'` and `lastSetId'`, with the
      result `r` and the weights `asked` about. */
  ghost predicate Stored(
    sets: seq<Db.StoredSet>, lastSetId: nat, sets': seq<Db.StoredSet>, lastSetId': nat,
    sessionId: nat, rawEntry: string, askIsOneRm: Oracle, fault: bool,
    r: Result<(string, nat), AddError>, asked: seq<real>)
  {
    && asked == EntryQuestions(rawEntry, askIsOneRm)
    && Outcome(EntryRows(rawEntry, askIsOneRm), sets, lastSetId, sets', lastSetId', sessionId, fault, r)
  }

  /** What storing the parsed entry `entry` leads to: a parse error or a storage failure
      changes nothing, otherwise the rows are appended with their indices and ids. */
  ghost predicate Outcome(
    entry: Result<(string, seq<Db.SetRow>), ParseError>,
    sets: seq<Db.StoredSet>, lastSetId: nat, sets': seq<Db.StoredSet>, lastSetId': nat,
    sessionId: nat, fault: bool, r: Result<(string, nat), AddError>)
  {
    match entry
    case Err(e) => r == Err(BadEntry(e)) && sets' == sets && lastSetId' == lastSetId
    case Ok((exercise, rows)) =>
      if fault then r == Err(StorageFailure(Db.EngineFailure)) && sets' == sets && lastSetId' == lastSetId
      else if !Db.RepsFit(rows) then
        r == Err(RepsOutOfRange) && sets' == sets && lastSetId' == lastSetId
      else
        && r == Ok((exercise, |rows|))
        && lastSetId' == lastSetId + |rows|
        && sets' == sets + Db.Stamped(rows, sessionId, exercise, Db.NextIndexOf(sets, sessionId, exercise), lastSetId + 1)
  }

  /** The part of `add_sets_from_entry` after the active session is found: parses the entry,
      asking `askIsOneRm` about every single-rep set, and inserts all of its rows or none.
      `asked` lists the weights asked about, in order; `fault` stands for a failure of the
      storage engine. */
  method InsertEntry(db: Db.Store, sessionId: nat, rawEntry: string, askIsOneRm: Oracle, fault: bool)
    returns (r: Result<(string, nat), AddError>, asked: seq<real>)
    requires db.Valid() && Db.SessionExists(db.sessions, sessionId)
    modifies db
    ensures db.Valid()
    ensures db.users == old(db.users) && db.sessions == old(db.sessions)
    ensures db.lastUserId == old(db.lastUserId) && db.lastSessionId == old(db.lastSessionId)
    ensures Stored(old(db.sets), old(db.lastSetId), db.sets, db.lastSetId, sessionId, rawEntry, askIsOneRm, fault, r, asked)
  {
    var entry;
    entry, asked := ParseEntry(rawEntry, askIsOneRm);
    if entry.Err? {
      r := Err(BadEntry(entry.error));
      assert Outcome(entry, old(db.sets), old(db.lastSetId), db.sets, db.lastSetId, sessionId, fault, r);
      return;
    }
    var (exercise, rows) := entry.value;
    assert forall i :: 0 <= i < |rows| ==> Db.Admissible(rows[i]);
    r := StoreRows(db, sessionId, exercise, rows, fault);
  }

  /** The `with` block of `add_sets_from_entry`: inserts the parsed rows of one entry, all of
      them or none, and turns a refusal of the store into the error the caller sees. */
  method StoreRows(db: Db.Store, sessionId: nat, exercise: string, rows: seq<Db.SetRow>, fault: bool)
    returns (r: Result<(string, nat), AddError>)
    requires db.Valid() && Db.SessionExists(db.sessions, sessionId)
    requires forall i :: 0 <= i < |rows| ==> Db.Admissible(rows[i])
    modifies db
    ensures db.Valid()
    ensures db.users == old(db.users) && db.sessions == old(db.sessions)
    ensures db.lastUserId == old(db.lastUserId) && db.lastSessionId == old(db.lastSessionId)
    ensures Outcome(Ok((exercise, rows)), old(db.sets), old(db.lastSetId), db.sets, db.lastSetId, sessionId, fault, r)
  {
    Db.BatchErrorOfAdmissible(rows);
    var inserted := db.InsertSets(sessionId, exercise, rows, fault);
    if inserted.Err? && fault {
      r := Err(StorageFailure(inserted.error));
      OutcomeOfFault(exercise, rows, db.sets, db.lastSetId, sessionId);
    } else if inserted.Err? {
      r := Err(RepsOutOfRange);
      OutcomeOfOverflow(exercise, rows, db.sets, db.lastSetId, sessionId);
    } else {
      r := Ok((exercise, |rows|));
      OutcomeOfInsert(exercise, rows, old(db.sets), old(db.lastSetId), db.sets, db.lastSetId, sessionId, fault);
    }
  }

  lemma OutcomeOfFault(exercise: string, rows: seq<Db.SetRow>, sets: seq<Db.StoredSet>, lastSetId: nat, sessionId: nat)
    ensures Outcome(Ok((exercise, rows)), sets, lastSetId, sets, lastSetId, sessionId, true, Err(StorageFailure(Db.EngineFailure)))
  {
  }

  lemma OutcomeOfOverflow(exercise: string, rows: seq<Db.SetRow>, sets: seq<Db.StoredSet>, lastSetId: nat, sessionId: nat)
    requires !Db.RepsFit(rows)
    ensures Outcome(Ok((exercise, rows)), sets, lastSetId, sets, lastSetId, sessionId, false, Err(RepsOutOfRange))
  {
  }

  lemma OutcomeOfInsert(
    exercise: string, rows: seq<Db.SetRow>, sets: seq<Db.StoredSet>, lastSetId: nat, sets': seq<Db.StoredSet>, lastSetId': nat,
    sessionId: nat, fault: bool)
    requires !fault
    requires Db.RepsFit(rows)
    requires lastSetId' == lastSetId + |rows|
    requires sets' == sets + Db.Stamped(rows, sessionId, exercise, Db.NextIndexOf(sets, sessionId, exercise), lastSetId + 1)
    ensures Outcome(Ok((exercise, rows)), sets, lastSetId, sets', lastSetId', sessionId, fault, Ok((exercise, |rows|)))
  {
  }

  // ---------------------------------------------------------------------------------------
  // Logging in

  /** `get_or_create_user`: the id of the user with the normalised name, created at
      `createdAt` when there is none yet. Afterwards the name finds that id, so logging in
      again under any spelling with the same normal form returns the same id and changes
      nothing. */
  method GetOrCreateUser(db: Db.Store, username: string, createdAt: Db.Timestamp) returns (userId: nat)
    requires db.Valid()
    modifies db
    ensures db.Valid()
    ensures db.sessions == old(db.sessions) && db.sets == old(db.sets)
    ensures db.lastSessionId == old(db.lastSessionId) && db.lastSetId == old(db.lastSetId)
    ensures db.GetUser(Normalize(username)) == Some(userId)
    ensures old(db.GetUser(Normalize(username))).Some? ==>
              userId == old(db.GetUser(Normalize(username))).value && db.users == old(db.users)
              && db.lastUserId == old(db.lastUserId)
    ensures old(db.GetUser(Normalize(username))).None? ==>
              userId == old(db.lastUserId) + 1 && db.lastUserId == userId
              && db.users == old(db.users) + [Db.UserRow(userId, Normalize(username), createdAt)]
  {
    var name := Normalize(username);
    var found := db.GetUser(name);
    if found.Some? {
      return found.value;
    }
    var created := db.CreateUser(createdAt, name);
    userId := created.value;
    Db.FindUserAt(db.users, |db.users| - 1);
  }
}
