/** The global helper functions: throw_if / throw_if_not, w (split words
    after collapsing whitespace) and tuples (parse "k:v, k:v"). The PHP
    string functions they rest on (explode, trim, is_numeric, the \s+
    replacement) are written out here over strings of characters. */
module Helpers {
  import opened Exceptions
  import opened PhpValues
  import opened PhpArrays

  // ---------------------------------------------------------------- throw_if

  /** throw_if: throws the named exception exactly when the condition is truthy. */
  function ThrowIf(cond: Value, className: string, message: string): (r: Result<()>)
    ensures r.Throw? <==> Truthy(cond)
    ensures r.Throw? ==> r.exception == Thrown(className, message)
  {
    if Truthy(cond) then Throw(Thrown(className, message)) else Ok(())
  }

  /** throw_if_not: throws exactly when the condition is falsy. */
  function ThrowIfNot(cond: Value, className: string, message: string): (r: Result<()>)
    ensures r.Throw? <==> !Truthy(cond)
    ensures r.Throw? ==> r.exception == Thrown(className, message)
  {
    if !Truthy(cond) then Throw(Thrown(className, message)) else Ok(())
  }

  /** For any condition exactly one of the pair throws. */
  lemma {:induction false} ThrowIfComplements(cond: Value, className: string, message: string)
    ensures ThrowIf(cond, className, message).Throw? != ThrowIfNot(cond, className, message).Throw?
  {
  }

  // ----------------------------------------------------------------- explode

  /** `d` occurs in `s` at position `i`. */
  predicate OccursAt(s: string, d: string, i: int) {
    0 <= i && i + |d| <= |s| && s[i..i + |d|] == d
  }

  /** `d` occurs somewhere in `s`. */
  predicate Contains(s: string, d: string) {
    exists i :: 0 <= i <= |s| && OccursAt(s, d, i)
  }

  /** The first occurrence of `d` in `s` at or after `from`, or -1. */
  function Find(s: string, d: string, from: nat): (r: int)
    requires |d| > 0
    ensures r == -1 || (from <= r && OccursAt(s, d, r))
    ensures forall j :: from <= j && (r < 0 || j < r) ==> !OccursAt(s, d, j)
    decreases |s| - from
  {
    if from + |d| > |s| then -1
    else if s[from..from + |d|] == d then from
    else Find(s, d, from + 1)
  }

  /** explode(d, s) for a non-empty delimiter: the pieces between the
      occurrences of `d`, scanning from the left. */
  function Explode(s: string, d: string): (r: seq<string>)
    requires |d| > 0
    ensures |r| > 0
    decreases |s|
  {
    var i := Find(s, d, 0);
    if i < 0 then [s] else [s[..i]] + Explode(s[i + |d|..], d)
  }

  /** implode(d, pieces): the inverse of explode. */
  function Join(pieces: seq<string>, d: string): string {
    if |pieces| == 0 then ""
    else if |pieces| == 1 then pieces[0]
    else pieces[0] + d + Join(pieces[1..], d)
  }

  /** Joining the pieces with the delimiter gives the string back. */
  lemma {:induction false} JoinExplode(s: string, d: string)
    requires |d| > 0
    ensures Join(Explode(s, d), d) == s
    decreases |s|
  {
    var i := Find(s, d, 0);
    if i >= 0 {
      var rest := s[i + |d|..];
      JoinExplode(rest, d);
      var e := Explode(rest, d);
      assert Explode(s, d) == [s[..i]] + e;
      assert Explode(s, d)[1..] == e;
      assert s == s[..i] + d + rest by {
        assert s[i..i + |d|] == d;
        assert s == s[..i] + s[i..i + |d|] + s[i + |d|..];
      }
    }
  }

  /** No piece of explode contains the delimiter. */
  lemma {:induction false} ExplodePiecesFree(s: string, d: string)
    requires |d| > 0
    ensures forall k :: 0 <= k < |Explode(s, d)| ==> !Contains(Explode(s, d)[k], d)
    decreases |s|
  {
    var i := Find(s, d, 0);
    if i >= 0 {
      var rest := s[i + |d|..];
      ExplodePiecesFree(rest, d);
      PrefixBeforeFindFree(s, d, i);
      var ps, tail := Explode(s, d), Explode(rest, d);
      assert ps == [s[..i]] + tail;
      forall k | 0 < k < |ps|
        ensures !Contains(ps[k], d)
      {
        assert ps[k] == tail[k - 1];
        assert !Contains(tail[k - 1], d);
      }
    } else {
      PrefixBeforeFindFree(s, d, |s|);
      assert s[..|s|] == s;
    }
  }

  /** Nothing before the first occurrence of `d` (or before the end, when
      there is none) contains `d`. */
  lemma {:induction false} PrefixBeforeFindFree(s: string, d: string, i: nat)
    requires |d| > 0 && i <= |s|
    requires Find(s, d, 0) == i || (Find(s, d, 0) < 0 && i == |s|)
    ensures !Contains(s[..i], d)
  {
    var head := s[..i];
    forall j | 0 <= j <= |head| && OccursAt(head, d, j)
      ensures false
    {
      assert head[j..j + |d|] == s[j..j + |d|];
      assert OccursAt(s, d, j);
    }
  }

  /** Every character of a piece comes from the exploded string. */
  lemma {:induction false} ExplodePiecesFrom(s: string, d: string)
    requires |d| > 0
    ensures forall p, c :: p in Explode(s, d) && c in p ==> c in s
    decreases |s|
  {
    var i := Find(s, d, 0);
    if i >= 0 {
      var rest := s[i + |d|..];
      ExplodePiecesFrom(rest, d);
      assert Explode(s, d) == [s[..i]] + Explode(rest, d);
      forall p, c | p in Explode(s, d) && c in p
        ensures c in s
      {
        if p == s[..i] {
          var k :| 0 <= k < |p| && p[k] == c;
          assert s[k] == c;
        } else {
          assert p in Explode(rest, d);
          var k :| 0 <= k < |rest| && rest[k] == c;
          assert s[i + |d| + k] == c;
        }
      }
    }
  }

  // -------------------------------------------------------------------- w

  /** What PCRE's \s matches: space, tab, line feed, vertical tab, form feed, carriage return. */
  predicate IsWhitespace(c: char) {
    c == ' ' || c == '\t' || c == '\n' || c == '\U{000B}' || c == '\U{000C}' || c == '\r'
  }

  /** `r` is `s` without its leading run of whitespace: a suffix of `s` that
      does not start with whitespace, preceded only by whitespace. */
  predicate DroppedLeading(r: string, s: string) {
    |r| <= |s| && r == s[|s| - |r|..] &&
    (|r| > 0 ==> !IsWhitespace(r[0])) &&
    (forall i :: 0 <= i < |s| - |r| ==> IsWhitespace(s[i]))
  }

  /** The string without its leading run of whitespace. */
  function DropWhitespace(s: string): (r: string)
    ensures DroppedLeading(r, s)
  {
    if |s| > 0 && IsWhitespace(s[0]) then
      var t := DropWhitespace(s[1..]);
      DropStep(s, t);
      t
    else s
  }

  /** Dropping the whitespace after a leading whitespace character drops it
      from the whole string. */
  lemma {:induction false} DropStep(s: string, t: string)
    requires |s| > 0 && IsWhitespace(s[0]) && DroppedLeading(t, s[1..])
    ensures DroppedLeading(t, s)
  {
    forall i | 0 < i < |s| - |t|
      ensures IsWhitespace(s[i])
    {
      assert s[i] == s[1..][i - 1];
    }
    assert s[1..][|s| - 1 - |t|..] == s[|s| - |t|..];
  }

  /** preg_replace('/\s+/', ' ', s): every maximal run of whitespace becomes
      one space. */
  function CollapseWhitespace(s: string): (r: string)
    ensures |r| > 0 && IsWhitespace(r[0]) ==> r[0] == ' ' && |s| > 0 && IsWhitespace(s[0])
    decreases |s|
  {
    if |s| == 0 then ""
    else if IsWhitespace(s[0]) then " " + CollapseWhitespace(DropWhitespace(s))
    else [s[0]] + CollapseWhitespace(s[1..])
  }

  /** The characters of `s` that are not whitespace, in order. */
  function Visible(s: string): (r: string)
    ensures forall i :: 0 <= i < |r| ==> !IsWhitespace(r[i])
  {
    if |s| == 0 then ""
    else if IsWhitespace(s[0]) then Visible(s[1..])
    else [s[0]] + Visible(s[1..])
  }

  /** A string whose only whitespace is single spaces. */
  predicate Collapsed(s: string) {
    (forall i :: 0 <= i < |s| && IsWhitespace(s[i]) ==> s[i] == ' ') &&
    (forall i :: 0 <= i < |s| - 1 && s[i] == ' ' ==> s[i + 1] != ' ')
  }

  lemma {:induction false} VisibleDropWhitespace(s: string)
    ensures Visible(DropWhitespace(s)) == Visible(s)
    decreases |s|
  {
    if |s| > 0 && IsWhitespace(s[0]) {
      VisibleDropWhitespace(s[1..]);
    }
  }

  /** The collapse keeps every visible character, in order, and leaves only
      single spaces as whitespace. */
  lemma {:induction false} CollapseWhitespaceCorrect(s: string)
    ensures Visible(CollapseWhitespace(s)) == Visible(s)
    ensures Collapsed(CollapseWhitespace(s))
    decreases |s|
  {
    if |s| > 0 {
      if IsWhitespace(s[0]) {
        var t := DropWhitespace(s);
        CollapseWhitespaceCorrect(t);
        VisibleDropWhitespace(s);
        var c := CollapseWhitespace(t);
        assert CollapseWhitespace(s) == " " + c;
        assert Visible(" " + c) == Visible(c) by { assert (" " + c)[1..] == c; }
        assert |c| > 0 ==> c[0] != ' ';
        CollapsedCons(' ', c);
      } else {
        var c := CollapseWhitespace(s[1..]);
        CollapseWhitespaceCorrect(s[1..]);
        assert CollapseWhitespace(s) == [s[0]] + c;
        assert ([s[0]] + c)[1..] == c;
        CollapsedCons(s[0], c);
      }
    }
  }

  lemma {:induction false} CollapsedCons(x: char, c: string)
    requires Collapsed(c)
    requires IsWhitespace(x) ==> x == ' '
    requires x == ' ' && |c| > 0 ==> c[0] != ' '
    ensures Collapsed([x] + c)
  {
    var t := [x] + c;
    forall i | 0 <= i < |t| - 1 && t[i] == ' '
      ensures t[i + 1] != ' '
    {
      if i > 0 { assert t[i] == c[i - 1] && t[i + 1] == c[i]; }
    }
  }

  /** Dropping the leading whitespace of `a + t`, where `a` ends in a visible
      character, only touches `a`. */
  lemma {:induction false} DropWhitespaceAppend(a: string, t: string)
    requires |a| > 0 && !IsWhitespace(a[|a| - 1])
    ensures DropWhitespace(a + t) == DropWhitespace(a) + t
    decreases |a|
  {
    assert (a + t)[0] == a[0];
    if IsWhitespace(a[0]) {
      assert (a + t)[1..] == a[1..] + t;
      DropWhitespaceAppend(a[1..], t);
    }
  }

  /** A whitespace run followed by a visible character (or nothing) is
      dropped whole. */
  lemma {:induction false} DropWhitespaceRun(w: string, b: string)
    requires forall i :: 0 <= i < |w| ==> IsWhitespace(w[i])
    requires |b| > 0 ==> !IsWhitespace(b[0])
    ensures DropWhitespace(w + b) == b
    decreases |w|
  {
    if |w| == 0 {
      assert w + b == b;
    } else {
      assert (w + b)[0] == w[0];
      assert (w + b)[1..] == w[1..] + b;
      DropWhitespaceRun(w[1..], b);
    }
  }

  /** The collapse splits at a point just after a visible character: no run
      of whitespace crosses it. */
  lemma {:induction false} CollapseAppend(a: string, t: string)
    requires |a| > 0 ==> !IsWhitespace(a[|a| - 1])
    ensures CollapseWhitespace(a + t) == CollapseWhitespace(a) + CollapseWhitespace(t)
    decreases |a|
  {
    if |a| == 0 {
      assert a + t == t;
    } else if IsWhitespace(a[0]) {
      var d := DropWhitespace(a);
      DropWhitespaceAppend(a, t);
      assert (a + t)[0] == a[0];
      assert |d| > 0 && d[|d| - 1] == a[|a| - 1];
      CollapseAppend(d, t);
    } else {
      assert (a + t)[0] == a[0];
      assert (a + t)[1..] == a[1..] + t;
      CollapseAppend(a[1..], t);
    }
  }

  /** Each maximal whitespace run, with a visible character or an end of the
      string on either side, becomes exactly one space, and the text around it
      collapses independently. */
  lemma {:induction false} CollapseRun(a: string, w: string, b: string)
    requires |w| > 0 && forall i :: 0 <= i < |w| ==> IsWhitespace(w[i])
    requires |a| > 0 ==> !IsWhitespace(a[|a| - 1])
    requires |b| > 0 ==> !IsWhitespace(b[0])
    ensures CollapseWhitespace(a + w + b) == CollapseWhitespace(a) + " " + CollapseWhitespace(b)
  {
    assert a + w + b == a + (w + b);
    CollapseAppend(a, w + b);
    CollapseLeadingRun(w, b);
  }

  /** A leading whitespace run before a visible character (or nothing)
      becomes one space. */
  lemma {:induction false} CollapseLeadingRun(w: string, b: string)
    requires |w| > 0 && forall i :: 0 <= i < |w| ==> IsWhitespace(w[i])
    requires |b| > 0 ==> !IsWhitespace(b[0])
    ensures CollapseWhitespace(w + b) == " " + CollapseWhitespace(b)
  {
    DropWhitespaceRun(w, b);
    assert (w + b)[0] == w[0];
  }

  /** A collapsed string is its own collapse. */
  lemma {:induction false} CollapseIdempotent(s: string)
    requires Collapsed(s)
    ensures CollapseWhitespace(s) == s
    decreases |s|
  {
    if |s| > 0 {
      assert Collapsed(s[1..]) by {
        forall i | 0 <= i < |s| - 2 && s[1..][i] == ' '
          ensures s[1..][i + 1] != ' '
        {
          assert s[i + 1] == ' ';
        }
      }
      CollapseIdempotent(s[1..]);
      if IsWhitespace(s[0]) {
        assert |s| > 1 ==> !IsWhitespace(s[1]);
        assert DropWhitespace(s) == s[1..];
        assert s == " " + s[1..];
      } else {
        assert s == [s[0]] + s[1..];
      }
    }
  }

  const ExplodeFalse: string := "Return value of w() must be of the type array, boolean returned"

  /** w(words, delimiter): explode the collapsed string. explode answers false
      for an empty delimiter, which the `: array` return type rejects. */
  function W(words: string, delimiter: string): (r: Result<seq<string>>)
    ensures r.Throw? <==> delimiter == ""
    ensures r.Throw? ==> r.exception == TypeError(ExplodeFalse)
    ensures r.Ok? ==> |r.value| > 0 && Join(r.value, delimiter) == CollapseWhitespace(words)
    ensures r.Ok? ==> forall k :: 0 <= k < |r.value| ==> !Contains(r.value[k], delimiter)
  {
    if delimiter == "" then Throw(TypeError(ExplodeFalse))
    else
      var c := CollapseWhitespace(words);
      JoinExplode(c, delimiter);
      ExplodePiecesFree(c, delimiter);
      Ok(Explode(c, delimiter))
  }

  /** With the default delimiter " ", no piece of w holds any whitespace. */
  lemma {:induction false} WDefaultHasNoWhitespace(words: string)
    ensures W(words, " ").Ok?
    ensures forall p, c :: p in W(words, " ").value && c in p ==> !IsWhitespace(c)
  {
    var s := CollapseWhitespace(words);
    var ps := W(words, " ").value;
    CollapseWhitespaceCorrect(words);
    ExplodePiecesFrom(s, " ");
    assert ps == Explode(s, " ");
    forall p, c | p in ps && c in p
      ensures !IsWhitespace(c)
    {
      var k :| 0 <= k < |ps| && ps[k] == p;
      SpaceFreePiece(p, c);
      assert c in s;
    }
  }

  /** A string in which " " does not occur holds no space character. */
  lemma {:induction false} SpaceFreePiece(p: string, c: char)
    requires !Contains(p, " ") && c in p
    ensures c != ' '
  {
    var k :| 0 <= k < |p| && p[k] == c;
    assert p[k..k + 1] == [c];
    assert !OccursAt(p, " ", k);
  }

  /** The first occurrence is `r` when `d` occurs at `r` and nowhere in
      between. */
  lemma {:induction false} FindAt(s: string, d: string, from: nat, r: nat)
    requires |d| > 0 && from <= r && OccursAt(s, d, r)
    requires forall j :: from <= j < r ==> !OccursAt(s, d, j)
    ensures Find(s, d, from) == r
  {
  }

  lemma {:induction false} ExplodeWordsExample()
    ensures Explode("one two three", " ") == ["one", "two", "three"]
  {
    WordsSplit();
    ExplodeThree("one", "two", "three", ' ');
  }

  /** Three pieces free of a one-character delimiter, joined by it, explode
      back into the three pieces. */
  lemma {:induction false} ExplodeThree(a: string, b: string, c: string, d: char)
    requires d !in a && d !in b && d !in c
    ensures Explode(a + [d] + (b + [d] + c), [d]) == [a, b, c]
  {
    ExplodeCons(a, d, b + [d] + c);
    ExplodeCons(b, d, c);
    ExplodeNone(c, d);
  }

  lemma {:induction false} WordsSplit()
    ensures "one two three" == "one" + [' '] + ("two" + [' '] + "three")
    ensures ' ' !in "one" && ' ' !in "two" && ' ' !in "three"
  {
    assert "two three" == "two" + [' '] + "three";
    assert "one two three" == "one" + [' '] + "two three";
  }

  lemma {:induction false} CollapsedWordsExample()
    ensures Collapsed("one two three")
  {
  }

  /** w('one two three') is ['one', 'two', 'three']. */
  lemma {:induction false} WExample()
    ensures W("one two three", " ") == Ok(["one", "two", "three"])
  {
    CollapsedWordsExample();
    CollapseIdempotent("one two three");
    ExplodeWordsExample();
  }

  // ------------------------------------------------------------------ trim

  /** The characters trim() strips by default: space, tab, line feed,
      carriage return, NUL and vertical tab. */
  predicate IsTrimmed(c: char) {
    c == ' ' || c == '\t' || c == '\n' || c == '\r' || c == '\0' || c == '\U{000B}'
  }

  /** The position of the first character at or after `i` that trim() keeps,
      or |s| when there is none. */
  function TrimStart(s: string, i: nat): (n: nat)
    requires i <= |s|
    ensures i <= n <= |s|
    ensures forall j :: i <= j < n ==> IsTrimmed(s[j])
    ensures n < |s| ==> !IsTrimmed(s[n])
    decreases |s| - i
  {
    if i < |s| && IsTrimmed(s[i]) then TrimStart(s, i + 1) else i
  }

  /** The end of the kept infix: strippable characters before `e` are dropped,
      but never below `lo`. */
  function TrimEnd(s: string, lo: nat, e: nat): (m: nat)
    requires lo <= e <= |s|
    ensures lo <= m <= e
    ensures forall j :: m <= j < e ==> IsTrimmed(s[j])
    ensures m > lo ==> !IsTrimmed(s[m - 1])
    decreases e
  {
    if e > lo && IsTrimmed(s[e - 1]) then TrimEnd(s, lo, e - 1) else e
  }

  /** trim(s): what is left once the strippable characters are gone from
      both ends; `s` is that infix with only strippable characters around it. */
  function Trim(s: string): (r: string)
    ensures |r| > 0 ==> !IsTrimmed(r[0]) && !IsTrimmed(r[|r| - 1])
    ensures var i := TrimStart(s, 0);
      i + |r| <= |s| && r == s[i..i + |r|] &&
      (forall j :: 0 <= j < i ==> IsTrimmed(s[j])) &&
      (forall j :: i + |r| <= j < |s| ==> IsTrimmed(s[j]))
  {
    var n := TrimStart(s, 0);
    var m := TrimEnd(s, n, |s|);
    assert m > n || n == |s|;
    s[n..m]
  }

  /** Trim is pinned down by the infix it keeps: strippable characters outside
      [i, j), and either a non-strippable character at each end of the infix
      or nothing kept at all. */
  lemma {:induction false} TrimIs(s: string, i: nat, j: nat)
    requires i <= j <= |s|
    requires forall k :: 0 <= k < i ==> IsTrimmed(s[k])
    requires forall k :: j <= k < |s| ==> IsTrimmed(s[k])
    requires (i < j && !IsTrimmed(s[i]) && !IsTrimmed(s[j - 1])) || i == |s|
    ensures Trim(s) == s[i..j]
  {
    var n := TrimStart(s, 0);
    assert n == i;
    var m := TrimEnd(s, n, |s|);
    assert m == j;
  }

  /** Trimming twice is trimming once. */
  lemma {:induction false} TrimIdempotent(s: string)
    ensures Trim(Trim(s)) == Trim(s)
  {
    var t := Trim(s);
    TrimIs(t, if |t| > 0 then 0 else |t|, |t|);
  }

  // ------------------------------------------------------------- is_numeric

  predicate IsDigit(c: char) {
    '0' <= c <= '9'
  }

  predicate AllDigits(s: string) {
    forall i :: 0 <= i < |s| ==> IsDigit(s[i])
  }

  /** is_numeric, for integers only: an optional sign, then one or more digits. */
  predicate IsNumeric(s: string) {
    if |s| > 0 && (s[0] == '+' || s[0] == '-') then |s| > 1 && AllDigits(s[1..])
    else |s| > 0 && AllDigits(s)
  }

  /** The value of a string of decimal digits. */
  function DigitsValue(s: string): (r: nat)
    requires AllDigits(s)
  {
    if |s| == 0 then 0
    else DigitsValue(s[..|s| - 1]) * 10 + ((s[|s| - 1] as int) - ('0' as int))
  }

  /** (int) cast of a numeric string. */
  function ParseInt(s: string): (r: int)
    requires IsNumeric(s)
    ensures s[0] == '-' ==> r <= 0
    ensures s[0] != '-' ==> r >= 0
  {
    if s[0] == '-' then 0 - DigitsValue(s[1..])
    else if s[0] == '+' then DigitsValue(s[1..])
    else DigitsValue(s)
  }

  lemma {:induction false} DigitCharValue(d: nat)
    requires d < 10
    ensures IsDigit(DigitChar(d)) && (DigitChar(d) as int) - ('0' as int) == d
  {
  }

  /** The decimal rendering of a natural number reads back as that number. */
  lemma {:induction false} NatToStringParses(n: nat)
    ensures |NatToString(n)| > 0 && AllDigits(NatToString(n))
    ensures DigitsValue(NatToString(n)) == n
    decreases n
  {
    var s := NatToString(n);
    if n < 10 {
      DigitCharValue(n);
    } else {
      NatToStringParses(n / 10);
      DigitCharValue(n % 10);
      var p := NatToString(n / 10);
      assert s == p + [DigitChar(n % 10)];
      assert s[..|s| - 1] == p;
    }
  }

  /** Every integer's decimal rendering is numeric and parses back to it. */
  lemma {:induction false} IntToStringParses(i: int)
    ensures IsNumeric(IntToString(i)) && ParseInt(IntToString(i)) == i
  {
    var s := IntToString(i);
    if i < 0 {
      var p := NatToString(-i);
      NatToStringParses(-i);
      assert s == "-" + p;
      assert s[0] == '-' && s[1..] == p;
    } else {
      NatToStringParses(i);
      assert s == NatToString(i);
      assert IsDigit(s[0]) && s[0] != '-' && s[0] != '+';
    }
  }

  /** An array key given as a string: a canonical decimal integer becomes an
      integer key, anything else stays a string key. */
  function KeyOf(s: string): (r: Key)
    ensures r.StrKey? ==> r.s == s
    ensures r.IntKey? ==> IntToString(r.i) == s
  {
    if IsNumeric(s) && IntToString(ParseInt(s)) == s then IntKey(ParseInt(s)) else StrKey(s)
  }

  /** The rendering of an integer is taken as that integer key. */
  lemma {:induction false} KeyOfIntToString(i: int)
    ensures KeyOf(IntToString(i)) == IntKey(i)
  {
    IntToStringParses(i);
  }

  // ---------------------------------------------------------------- tuples

  /** A tuple's value: cast to int when numeric, kept as a string otherwise. */
  function TupleValue(s: string): Value {
    if IsNumeric(s) then VInt(ParseInt(s)) else VStr(s)
  }

  /** One "key:value" tuple: the trimmed text before the first ':' is the
      key; the trimmed text between the first and a second ':' is the value,
      and with no ':' at all the missing part reads as null, which trims to "". */
  function TupleEntry(t: string): Entry {
    var ra := Explode(t, ":");
    var v := if |ra| > 1 then Trim(ra[1]) else "";
    Entry(KeyOf(Trim(ra[0])), TupleValue(v))
  }

  function TupleEntries(pieces: seq<string>): (r: PArray)
    ensures |r| == |pieces|
    ensures forall i :: 0 <= i < |r| ==> r[i] == TupleEntry(pieces[i])
  {
    if |pieces| == 0 then [] else [TupleEntry(pieces[0])] + TupleEntries(pieces[1..])
  }

  /** tuples(encoded): split with w on ',', then assign each tuple in turn. */
  function Tuples(encoded: string): (r: PArray)
    ensures DistinctKeys(r)
  {
    AssignAll([], TupleEntries(W(encoded, ",").value))
  }

  /** A key that several tuples share keeps the value of the last of them;
      a key no tuple names is absent. */
  lemma {:induction false} TuplesLastWins(encoded: string, k: Key)
    ensures var entries := TupleEntries(W(encoded, ",").value);
      var i := LastKeyIndex(entries, k);
      Lookup(Tuples(encoded), k) == if i < 0 then None else Some(entries[i].value)
  {
    AssignAllLookup([], TupleEntries(W(encoded, ",").value), k);
  }

  /** In distinct-keyed items, an entry is what its key looks up. */
  lemma {:induction false} LookupEntry(a: PArray, p: int)
    requires DistinctKeys(a) && 0 <= p < |a|
    ensures Lookup(a, a[p].key) == Some(a[p].value)
  {
    var i := KeyIndex(a, a[p].key);
    assert a[i].key == a[p].key;
  }

  /** The property TuplesTrimmed states, for one entry. */
  predicate TrimmedEntry(e: Entry) {
    (e.key.StrKey? ==> Trim(e.key.s) == e.key.s) &&
    (e.value.VStr? ==> Trim(e.value.s) == e.value.s && !IsNumeric(e.value.s))
  }

  lemma {:induction false} TupleEntryTrimmed(t: string)
    ensures TrimmedEntry(TupleEntry(t))
  {
    var ra := Explode(t, ":");
    TrimIdempotent(ra[0]);
    if |ra| > 1 {
      TrimIdempotent(ra[1]);
    }
  }

  /** Every entry of an array built by assignments is one of the assigned pairs. */
  lemma {:induction false} AssignAllEntriesFromPairs(pairs: PArray)
    ensures forall e :: e in AssignAll([], pairs) ==> e in pairs
  {
    var r := AssignAll([], pairs);
    forall e | e in r
      ensures e in pairs
    {
      var p :| 0 <= p < |r| && r[p] == e;
      LookupEntry(r, p);
      AssignAllLookup([], pairs, e.key);
      var i := LastKeyIndex(pairs, e.key);
      assert 0 <= i && pairs[i] == e;
    }
  }

  lemma {:induction false} TupleEntriesTrimmed(pieces: seq<string>)
    ensures forall e :: e in TupleEntries(pieces) ==> TrimmedEntry(e)
  {
    var entries := TupleEntries(pieces);
    forall e | e in entries
      ensures TrimmedEntry(e)
    {
      var i :| 0 <= i < |entries| && entries[i] == e;
      TupleEntryTrimmed(pieces[i]);
    }
  }

  /** Keys and values come out trimmed, and a string value is never numeric. */
  lemma {:induction false} TuplesTrimmed(encoded: string)
    ensures forall e :: e in Tuples(encoded) ==> TrimmedEntry(e)
  {
    var entries := TupleEntries(W(encoded, ",").value);
    AssignAllEntriesFromPairs(entries);
    TupleEntriesTrimmed(W(encoded, ",").value);
  }

  /** Assigning pairs with distinct keys into an empty array rebuilds them. */
  lemma {:induction false} AssignAllDistinct(pairs: PArray)
    requires DistinctKeys(pairs)
    ensures AssignAll([], pairs) == pairs
    decreases |pairs|
  {
    if |pairs| > 0 {
      var n := |pairs| - 1;
      var init := pairs[..n];
      assert DistinctKeys(init);
      AssignAllDistinct(init);
      assert !HasKey(init, pairs[n].key);
      assert init + [pairs[n]] == pairs;
    }
  }

  /** A single-character delimiter that `a` lacks splits off `a` as the first piece. */
  lemma {:induction false} ExplodeCons(a: string, c: char, rest: string)
    requires c !in a
    ensures Explode(a + [c] + rest, [c]) == [a] + Explode(rest, [c])
  {
    var s := a + [c] + rest;
    forall j | 0 <= j < |a| ensures !OccursAt(s, [c], j) {
      assert s[j..j + 1][0] == a[j];
    }
    FindAt(s, [c], 0, |a|);
    assert s[..|a|] == a && s[|a| + 1..] == rest;
  }

  /** A string without the delimiter character explodes to itself. */
  lemma {:induction false} ExplodeNone(a: string, c: char)
    requires c !in a
    ensures Explode(a, [c]) == [a]
  {
    forall j | 0 <= j < |a| ensures !OccursAt(a, [c], j) {
      assert a[j..j + 1][0] == a[j] != c;
    }
  }

  /** Text with nothing to strip at either end is its own trim. */
  lemma {:induction false} TrimUnpadded(s: string)
    requires |s| > 0 && !IsTrimmed(s[0]) && !IsTrimmed(s[|s| - 1])
    ensures Trim(s) == s
  {
    TrimIs(s, 0, |s|);
  }

  /** A leading space in front of an unpadded string is stripped. */
  lemma {:induction false} TrimLeadingSpace(s: string)
    requires |s| > 0 && !IsTrimmed(s[0]) && !IsTrimmed(s[|s| - 1])
    ensures Trim(" " + s) == s
  {
    var t := " " + s;
    assert t[1] == s[0] && t[|t| - 1] == s[|s| - 1];
    TrimIs(t, 1, |t|);
    assert t[1..] == s;
  }

  /** A tuple with one ':' splits into its trimmed halves. */
  lemma {:induction false} TupleEntrySplit(k: string, v: string)
    requires ':' !in k && ':' !in v
    ensures TupleEntry(k + ":" + v) == Entry(KeyOf(Trim(k)), TupleValue(Trim(v)))
  {
    ExplodeCons(k, ':', v);
    ExplodeNone(v, ':');
  }

  /** A lower-case word is a string key. */
  lemma {:induction false} WordKey(w: string)
    requires |w| > 0 && forall i :: 0 <= i < |w| ==> 'a' <= w[i] <= 'z'
    ensures Trim(w) == w && Trim(" " + w) == w && KeyOf(w) == StrKey(w)
  {
    var c := w[0];
    assert !IsDigit(c) && c != '+' && c != '-' && !IsTrimmed(c) && !IsTrimmed(w[|w| - 1]);
    assert !IsNumeric(w);
    TrimUnpadded(w);
    TrimLeadingSpace(w);
  }

  /** A single digit is an int value. */
  lemma {:induction false} DigitValue(d: nat)
    requires d < 10
    ensures Trim([DigitChar(d)]) == [DigitChar(d)] && TupleValue([DigitChar(d)]) == VInt(d)
  {
    var c := DigitChar(d);
    DigitCharValue(d);
    var s := [c];
    assert IsNumeric(s) && ParseInt(s) == d by {
      assert AllDigits(s) && c != '-' && c != '+';
      assert s[..0] == "";
      assert DigitsValue(s) == DigitsValue(s[..0]) * 10 + ((c as int) - ('0' as int));
    }
    assert !IsTrimmed(c);
    TrimUnpadded(s);
  }

  lemma {:induction false} TuplesExampleCollapsed()
    ensures CollapseWhitespace("one:1, two:2, three:3") == "one:1, two:2, three:3"
  {
    assert Collapsed("one:1, two:2, three:3");
    CollapseIdempotent("one:1, two:2, three:3");
  }

  lemma {:induction false} TuplesSplit()
    ensures "one:1, two:2, three:3" == "one:1" + [','] + (" two:2" + [','] + " three:3")
    ensures ',' !in "one:1" && ',' !in " two:2" && ',' !in " three:3"
  {
    assert " two:2, three:3" == " two:2" + [','] + " three:3";
    assert "one:1, two:2, three:3" == "one:1" + [','] + " two:2, three:3";
  }

  /** w's result from the collapsed string and its pieces. */
  lemma {:induction false} WFromPieces(words: string, d: string, c: string, pieces: seq<string>)
    requires |d| > 0 && CollapseWhitespace(words) == c && Explode(c, d) == pieces
    ensures W(words, d) == Ok(pieces)
  {
  }

  /** The three pieces of 'one:1, two:2, three:3' after w(…, ','). */
  lemma {:induction false} TuplesExamplePieces()
    ensures W("one:1, two:2, three:3", ",") == Ok(["one:1", " two:2", " three:3"])
  {
    TuplesExampleCollapsed();
    TuplesSplit();
    ExplodeThree("one:1", " two:2", " three:3", ',');
    WFromPieces("one:1, two:2, three:3", ",", "one:1, two:2, three:3", ["one:1", " two:2", " three:3"]);
  }

  /** A tuple made of optional padding, a lower-case word, ':' and a digit. */
  lemma {:induction false} WordDigitTuple(t: string, pad: string, w: string, d: nat)
    requires pad == "" || pad == " "
    requires |w| > 0 && forall i :: 0 <= i < |w| ==> 'a' <= w[i] <= 'z'
    requires d < 10 && t == pad + w + ":" + [DigitChar(d)]
    ensures TupleEntry(t) == Entry(StrKey(w), VInt(d))
  {
    PaddedWord(pad, w);
    DigitValue(d);
    TupleEntrySplit(pad + w, [DigitChar(d)]);
  }

  /** A lower-case word after optional padding trims to a string key. */
  lemma {:induction false} PaddedWord(pad: string, w: string)
    requires pad == "" || pad == " "
    requires |w| > 0 && forall i :: 0 <= i < |w| ==> 'a' <= w[i] <= 'z'
    ensures ':' !in pad + w && Trim(pad + w) == w && KeyOf(w) == StrKey(w)
  {
    WordKey(w);
    if pad == " " {
      assert pad + w == " " + w;
    } else {
      assert pad + w == w;
    }
  }

  lemma {:induction false} TupleEntriesOfThree(pieces: seq<string>)
    requires |pieces| == 3
    ensures TupleEntries(pieces) == [TupleEntry(pieces[0]), TupleEntry(pieces[1]), TupleEntry(pieces[2])]
  {
    assert pieces[1..][1..][1..] == [];
  }

  lemma {:induction false} TupleOneExample()
    ensures TupleEntry("one:1") == Entry(StrKey("one"), VInt(1))
  {
    WordDigitTuple("one:1", "", "one", 1);
  }

  lemma {:induction false} TupleTwoExample()
    ensures TupleEntry(" two:2") == Entry(StrKey("two"), VInt(2))
  {
    WordDigitTuple(" two:2", " ", "two", 2);
  }

  lemma {:induction false} TupleThreeExample()
    ensures TupleEntry(" three:3") == Entry(StrKey("three"), VInt(3))
  {
    WordDigitTuple(" three:3", " ", "three", 3);
  }

  lemma {:induction false} TuplesExampleEntries()
    ensures TupleEntries(["one:1", " two:2", " three:3"]) ==
      [Entry(StrKey("one"), VInt(1)), Entry(StrKey("two"), VInt(2)), Entry(StrKey("three"), VInt(3))]
  {
    TupleOneExample();
    TupleTwoExample();
    TupleThreeExample();
    TupleEntriesOfThree(["one:1", " two:2", " three:3"]);
  }

  /** tuples' result when the pieces' entries already have distinct keys. */
  lemma {:induction false} TuplesFromEntries(encoded: string, pieces: seq<string>, entries: PArray)
    requires W(encoded, ",") == Ok(pieces) && TupleEntries(pieces) == entries
    requires DistinctKeys(entries)
    ensures Tuples(encoded) == entries
  {
    AssignAllDistinct(entries);
  }

  lemma {:induction false} TuplesExampleDistinct()
    ensures DistinctKeys([Entry(StrKey("one"), VInt(1)), Entry(StrKey("two"), VInt(2)), Entry(StrKey("three"), VInt(3))])
  {
  }

  /** tuples('one:1, two:2, three:3') is ["one" => 1, "two" => 2, "three" => 3]. */
  lemma {:induction false} TuplesExample()
    ensures Tuples("one:1, two:2, three:3") ==
      [Entry(StrKey("one"), VInt(1)), Entry(StrKey("two"), VInt(2)), Entry(StrKey("three"), VInt(3))]
  {
    TuplesExamplePieces();
    TuplesExampleEntries();
    TuplesExampleDistinct();
    TuplesFromEntries("one:1, two:2, three:3", ["one:1", " two:2", " three:3"],
      [Entry(StrKey("one"), VInt(1)), Entry(StrKey("two"), VInt(2)), Entry(StrKey("three"), VInt(3))]);
  }
}
