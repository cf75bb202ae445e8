/** The Python `str` operations that the knowledge loader and the chat loop
    use, `strip()`, `lower()`, `split("|")` and `in`, over ASCII, together
    with `Count` and `Join`, which are not used by chatbot.py but serve to
    state what `split` computes. */
module PyStr {

  /** The characters that `str.strip()` with no argument removes, restricted
      to ASCII: tab, line feed, vertical tab, form feed, carriage return, the
      four information separators U+001C..U+001F, and space. */
  predicate IsSpace(c: char) {
    c == ' ' || ('\t' <= c <= '\r') || ('\U{1C}' <= c <= '\U{1F}')
  }

  predicate IsUpper(c: char) {
    'A' <= c <= 'Z'
  }

  /** No whitespace at either end. */
  predicate IsStripped(s: string) {
    s == [] || (!IsSpace(s[0]) && !IsSpace(s[|s| - 1]))
  }

  predicate AllSpace(s: string) {
    forall i :: 0 <= i < |s| ==> IsSpace(s[i])
  }

  predicate IsLowerCase(s: string) {
    forall i :: 0 <= i < |s| ==> !IsUpper(s[i])
  }

  // ---------------------------------------------------------------------
  // count and `in`

  /** `s.count(c)` for a one-character needle. */
  function Count(s: string, c: char): nat {
    if s == [] then 0 else (if s[0] == c then 1 else 0) + Count(s[1..], c)
  }

  lemma {:induction false} CountConcat(a: string, b: string, c: char)
    ensures Count(a + b, c) == Count(a, c) + Count(b, c)
  {
    if a != [] {
      assert (a + b)[1..] == a[1..] + b;
      CountConcat(a[1..], b, c);
    } else {
      assert a + b == b;
    }
  }

  lemma {:induction false} CountZero(s: string, c: char)
    ensures Count(s, c) == 0 <==> c !in s
  {
    if s != [] {
      CountZero(s[1..], c);
      assert s == [s[0]] + s[1..];
    }
  }

  /** A character that occurs exactly once occurs at no other position. */
  lemma CountOneUnique(s: string, c: char, p: int)
    requires 0 <= p < |s| && s[p] == c && Count(s, c) == 1
    ensures forall k :: 0 <= k < |s| && k != p ==> s[k] != c
  {
    assert s == s[..p] + ([s[p]] + s[p + 1..]);
    CountConcat(s[..p], [s[p]] + s[p + 1..], c);
    CountConcat([s[p]], s[p + 1..], c);
    CountZero(s[..p], c);
    CountZero(s[p + 1..], c);
    forall k | 0 <= k < |s| && k != p ensures s[k] != c {
      if k < p { assert s[k] == s[..p][k]; } else { assert s[k] == s[p + 1..][k - p - 1]; }
    }
  }

  // ---------------------------------------------------------------------
  // strip

  /** `str.lstrip()`: the longest suffix that does not start with whitespace. */
  function TrimLeft(s: string): (r: string)
    ensures |r| <= |s|
    ensures r == [] || !IsSpace(r[0])
  {
    if |s| > 0 && IsSpace(s[0]) then TrimLeft(s[1..]) else s
  }

  /** What `lstrip` removes is a run of whitespace at the front. */
  lemma {:induction false} TrimLeftSuffix(s: string)
    ensures TrimLeft(s) == s[|s| - |TrimLeft(s)|..]
    ensures AllSpace(s[..|s| - |TrimLeft(s)|])
  {
    if |s| > 0 && IsSpace(s[0]) {
      TrimLeftSuffix(s[1..]);
      assert s[1..][|s| - 1 - |TrimLeft(s)|..] == s[|s| - |TrimLeft(s)|..];
      var k := |s| - |TrimLeft(s)|;
      assert forall i :: 1 <= i < k ==> s[..k][i] == s[1..][..k - 1][i - 1];
    }
  }

  /** `str.rstrip()`: the longest prefix that does not end with whitespace. */
  function TrimRight(s: string): (r: string)
    ensures |r| <= |s|
    ensures r == [] || !IsSpace(r[|r| - 1])
  {
    if |s| > 0 && IsSpace(s[|s| - 1]) then TrimRight(s[..|s| - 1]) else s
  }

  /** What `rstrip` removes is a run of whitespace at the end. */
  lemma {:induction false} TrimRightPrefix(s: string)
    ensures TrimRight(s) == s[..|TrimRight(s)|]
    ensures AllSpace(s[|TrimRight(s)|..])
  {
    if |s| > 0 && IsSpace(s[|s| - 1]) {
      var t := s[..|s| - 1];
      TrimRightPrefix(t);
      var k := |TrimRight(s)|;
      assert t[..k] == s[..k];
      assert s[k..] == t[k..] + [s[|s| - 1]];
    }
  }

  /** `str.strip()`. */
  function Strip(s: string): (r: string)
    ensures IsStripped(r)
  {
    var l := TrimLeft(s);
    TrimRightPrefix(l);
    TrimRight(l)
  }

  /** What `Strip` keeps is one contiguous slice of its input, and everything
      around that slice is whitespace. */
  lemma StripBounds(s: string) returns (i: nat, j: nat)
    ensures i <= j <= |s| && Strip(s) == s[i..j]
    ensures forall k :: 0 <= k < i ==> IsSpace(s[k])
    ensures forall k :: j <= k < |s| ==> IsSpace(s[k])
  {
    var l := TrimLeft(s);
    var r := TrimRight(l);
    TrimLeftSuffix(s);
    TrimRightPrefix(l);
    i := |s| - |l|;
    j := i + |r|;
    assert s[i..j] == l[..|r|];
    assert s[j..] == l[|r|..];
    assert forall k :: 0 <= k < i ==> s[k] == s[..i][k];
    assert forall k :: j <= k < |s| ==> s[k] == s[j..][k - j];
  }

  lemma {:induction false} TrimLeftAllSpace(s: string)
    requires AllSpace(s)
    ensures TrimLeft(s) == []
  {
    if s != [] {
      TrimLeftAllSpace(s[1..]);
    }
  }

  lemma {:induction false} TrimLeftSpaces(w: string, s: string)
    requires AllSpace(w)
    ensures TrimLeft(w + s) == TrimLeft(s)
  {
    if w != [] {
      assert (w + s)[1..] == w[1..] + s;
      TrimLeftSpaces(w[1..], s);
    } else {
      assert w + s == s;
    }
  }

  lemma {:induction false} TrimRightSpaces(s: string, w: string)
    requires AllSpace(w)
    ensures TrimRight(s + w) == TrimRight(s)
  {
    if w != [] {
      assert (s + w)[..|s + w| - 1] == s + w[..|w| - 1];
      TrimRightSpaces(s, w[..|w| - 1]);
    } else {
      assert s + w == s;
    }
  }

  lemma {:induction false} TrimLeftAppend(s: string, t: string)
    requires !AllSpace(s)
    ensures TrimLeft(s + t) == TrimLeft(s) + t
  {
    assert s != [];
    if IsSpace(s[0]) {
      assert (s + t)[1..] == s[1..] + t;
      assert !AllSpace(s[1..]) by {
        var k :| 0 <= k < |s| && !IsSpace(s[k]);
        assert s[1..][k - 1] == s[k];
      }
      TrimLeftAppend(s[1..], t);
    }
  }

  /** Whitespace in front of a string does not change what `strip` keeps. */
  lemma StripPrependSpaces(w: string, s: string)
    requires AllSpace(w)
    ensures Strip(w + s) == Strip(s)
  {
    TrimLeftSpaces(w, s);
  }

  /** Whitespace after a string does not change what `strip` keeps. */
  lemma StripAppendSpaces(s: string, w: string)
    requires AllSpace(w)
    ensures Strip(s + w) == Strip(s)
  {
    if AllSpace(s) {
      assert AllSpace(s + w);
      TrimLeftAllSpace(s + w);
      TrimLeftAllSpace(s);
    } else {
      TrimLeftAppend(s, w);
      TrimRightSpaces(TrimLeft(s), w);
    }
  }

  /** Dropping leading whitespace from a slice's start changes nothing. */
  lemma StripDropFront(s: string, i: nat, j: nat)
    requires i <= j <= |s| && AllSpace(s[..i])
    ensures Strip(s[..j]) == Strip(s[i..j])
  {
    assert s[..j] == s[..i] + s[i..j];
    StripPrependSpaces(s[..i], s[i..j]);
  }

  /** Dropping trailing whitespace from a slice's end changes nothing. */
  lemma StripDropBack(s: string, i: nat, j: nat)
    requires i <= j <= |s| && AllSpace(s[j..])
    ensures Strip(s[i..]) == Strip(s[i..j])
  {
    assert s[i..] == s[i..j] + s[j..];
    StripAppendSpaces(s[i..j], s[j..]);
  }

  /** `strip` leaves a string that has no whitespace at its ends unchanged. */
  lemma StripStripped(s: string)
    requires IsStripped(s)
    ensures Strip(s) == s
  {
  }

  /** `strip` removes only whitespace, so it keeps every `|`. */
  lemma StripCount(s: string, c: char)
    requires !IsSpace(c)
    ensures Count(Strip(s), c) == Count(s, c)
  {
    var i, j := StripBounds(s);
    var front, kept, back := s[..i], s[i..j], s[j..];
    assert s == front + kept + back;
    CountConcat(front + kept, back, c);
    CountConcat(front, kept, c);
    assert c !in front && c !in back;
    CountZero(front, c);
    CountZero(back, c);
  }

  /** `strip` keeps a string free of `c` when `c` is not whitespace. */
  lemma StripFree(s: string, c: char)
    requires !IsSpace(c) && c !in s
    ensures c !in Strip(s)
  {
    CountZero(s, c);
    StripCount(s, c);
    CountZero(Strip(s), c);
  }

  // ---------------------------------------------------------------------
  // lower

  /** `str.lower()` on one ASCII character. */
  function LowerChar(c: char): char {
    if IsUpper(c) then (c as int - 'A' as int + 'a' as int) as char else c
  }

  /** `str.lower()`: upper-case ASCII letters become lower-case, every other
      character is kept. */
  function Lower(s: string): (r: string)
    ensures |r| == |s| && IsLowerCase(r)
    ensures forall i :: 0 <= i < |s| && !IsUpper(s[i]) ==> r[i] == s[i]
    ensures forall i :: 0 <= i < |s| && IsUpper(s[i]) ==> r[i] as int == s[i] as int + 32
  {
    seq(|s|, i requires 0 <= i < |s| => LowerChar(s[i]))
  }

  /** Lower-casing changes neither whitespace nor `|`. */
  lemma LowerKeeps(s: string)
    ensures IsStripped(Lower(s)) == IsStripped(s)
    ensures ('|' in Lower(s)) == ('|' in s)
  {
  }

  /** A string with no upper-case letter is its own lower-case form. */
  lemma LowerOfLowerCase(s: string)
    requires IsLowerCase(s)
    ensures Lower(s) == s
  {
  }

  // ---------------------------------------------------------------------
  // split and join

  /** `"|".join(parts)`. */
  function Join(parts: seq<string>): string {
    if |parts| == 0 then ""
    else if |parts| == 1 then parts[0]
    else parts[0] + "|" + Join(parts[1..])
  }

  /** `s.split("|")`: the pieces between the separators, in order; there is
      always one more piece than there are separators. */
  function Split(s: string): (parts: seq<string>)
    ensures |parts| == Count(s, '|') + 1
    ensures forall k :: 0 <= k < |parts| ==> '|' !in parts[k]
  {
    if s == [] then [""]
    else
      var rest := Split(s[1..]);
      if s[0] == '|' then [""] + rest
      else [[s[0]] + rest[0]] + rest[1..]
  }

  /** Joining the pieces again gives back the string that was split. */
  lemma {:induction false} JoinSplit(s: string)
    ensures Join(Split(s)) == s
  {
    if s != [] {
      var rest := Split(s[1..]);
      JoinSplit(s[1..]);
      if s[0] == '|' {
        assert ([""] + rest)[1..] == rest;
      } else {
        var parts := [[s[0]] + rest[0]] + rest[1..];
        if |rest| > 1 {
          assert parts[1..] == rest[1..];
          assert rest == [rest[0]] + rest[1..];
        }
      }
    }
  }

  lemma {:induction false} SplitNoBar(s: string)
    requires '|' !in s
    ensures Split(s) == [s]
  {
    if s != [] {
      assert s == [s[0]] + s[1..];
      SplitNoBar(s[1..]);
    }
  }

  lemma {:induction false} SplitAfterBar(x: string, y: string)
    requires '|' !in x
    ensures Split(x + "|" + y) == [x] + Split(y)
  {
    if x == [] {
      assert x + "|" + y == "|" + y;
      assert ("|" + y)[1..] == y;
    } else {
      assert (x + "|" + y)[1..] == x[1..] + "|" + y;
      SplitAfterBar(x[1..], y);
      assert [x[0]] + x[1..] == x;
    }
  }

  /** Splitting pieces that hold no `|` after joining them gives back the
      pieces. */
  lemma {:induction false} SplitJoin(parts: seq<string>)
    requires |parts| >= 1
    requires forall k :: 0 <= k < |parts| ==> '|' !in parts[k]
    ensures Split(Join(parts)) == parts
  {
    if |parts| == 1 {
      SplitNoBar(parts[0]);
    } else {
      SplitJoin(parts[1..]);
      SplitAfterBar(parts[0], Join(parts[1..]));
      assert parts == [parts[0]] + parts[1..];
    }
  }
}
