/**
 * The three string operations the extension-set parser applies to a filter
 * pattern: lower-casing, removing every occurrence of a character, and
 * splitting on a delimiter.
 */
module Strings {

  predicate IsUpperAscii(c: char) {
    'A' <= c <= 'Z'
  }

  /** No character of `s` is an ASCII capital letter. */
  predicate IsLowerCase(s: string) {
    forall c :: c in s ==> !IsUpperAscii(c)
  }

  /** Lower-casing of one character: capitals move to their small letter, everything else is kept. */
  function LowerChar(c: char): (r: char)
    ensures !IsUpperAscii(r)
    ensures !IsUpperAscii(c) ==> r == c
    ensures IsUpperAscii(c) ==> 'a' <= r <= 'z' && r as int - c as int == 'a' as int - 'A' as int
  {
    if IsUpperAscii(c) then (c as int - 'A' as int + 'a' as int) as char else c
  }

  /** `s.lower()`, restricted to ASCII letters. */
  function Lower(s: string): string {
    seq(|s|, i requires 0 <= i < |s| => LowerChar(s[i]))
  }

  /** The lower-cased string has no capitals, and lower-casing it again changes nothing. */
  lemma LowerIsLowerCase(s: string)
    ensures |Lower(s)| == |s|
    ensures IsLowerCase(Lower(s))
    ensures Lower(Lower(s)) == Lower(s)
  {
  }

  /** A string that is already lower case is its own lower-casing. */
  lemma LowerOfLowerCase(s: string)
    requires IsLowerCase(s)
    ensures Lower(s) == s
  {
  }

  /** Lower-casing works character by character, so it distributes over concatenation and slicing. */
  lemma LowerAppend(a: string, b: string)
    ensures Lower(a + b) == Lower(a) + Lower(b)
  {
  }

  lemma LowerSlice(s: string, lo: int, hi: int)
    requires 0 <= lo <= hi <= |s|
    ensures Lower(s[lo..hi]) == Lower(s)[lo..hi]
    ensures Lower(s[lo..]) == Lower(s)[lo..]
    ensures Lower(s[..hi]) == Lower(s)[..hi]
  {
  }

  /** `s.replace(c, "")`: `s` with every `c` removed, the other characters kept in order. */
  function RemoveAll(s: string, c: char): (r: string)
    ensures c !in r
    ensures forall x :: x in r <==> x in s && x != c
    ensures c !in s ==> r == s
  {
    if s == [] then []
    else
      assert s == [s[0]] + s[1..];
      if s[0] == c then RemoveAll(s[1..], c)
      else [s[0]] + RemoveAll(s[1..], c)
  }

  /** Removal works piece by piece: it distributes over concatenation, so the kept characters stay in order. */
  lemma {:induction false} RemoveAllAppend(a: string, b: string, c: char)
    ensures RemoveAll(a + b, c) == RemoveAll(a, c) + RemoveAll(b, c)
  {
    if a == [] {
      assert a + b == b;
    } else {
      assert (a + b)[0] == a[0] && (a + b)[1..] == a[1..] + b;
      RemoveAllAppend(a[1..], b, c);
    }
  }

  /** `d.join(parts)`. */
  function JoinWith(parts: seq<string>, d: char): string {
    if |parts| == 0 then []
    else if |parts| == 1 then parts[0]
    else parts[0] + [d] + JoinWith(parts[1..], d)
  }

  /**
   * `s.split(d)`: the maximal `d`-free pieces of `s`, in order. There is always
   * at least one piece, empty pieces are kept, and joining the pieces with `d`
   * gives `s` back.
   */
  function Split(s: string, d: char): (r: seq<string>)
    ensures |r| >= 1
    ensures forall i :: 0 <= i < |r| ==> d !in r[i]
    ensures JoinWith(r, d) == s
  {
    if s == [] then [[]]
    else
      var rest := Split(s[1..], d);
      if s[0] == d then
        assert [d] + s[1..] == s;
        [[]] + rest
      else
        var r := [[s[0]] + rest[0]] + rest[1..];
        assert r[1..] == rest[1..];
        assert JoinWith(r, d) == [s[0]] + JoinWith(rest, d) by {
          if |rest| > 1 {
            assert JoinWith(rest, d) == rest[0] + [d] + JoinWith(rest[1..], d);
          }
        }
        r
  }

  /**
   * Splitting is the inverse of joining: any non-empty list of `d`-free pieces
   * is what `Split` returns for the string they join to.
   */
  lemma {:induction false} SplitJoin(parts: seq<string>, d: char)
    requires |parts| >= 1
    requires forall i :: 0 <= i < |parts| ==> d !in parts[i]
    ensures Split(JoinWith(parts, d), d) == parts
    decreases |JoinWith(parts, d)|, |parts[0]|
  {
    var s := JoinWith(parts, d);
    if parts[0] == [] {
      if |parts| == 1 {
        assert s == [];
      } else {
        assert s == [d] + JoinWith(parts[1..], d);
        assert s[1..] == JoinWith(parts[1..], d);
        SplitJoin(parts[1..], d);
        assert parts == [[]] + parts[1..];
      }
    } else {
      var head := parts[0];
      var tail := [head[1..]] + parts[1..];
      assert tail[1..] == parts[1..];
      assert head == [head[0]] + head[1..];
      assert forall i :: 0 <= i < |tail| ==> d !in tail[i] by {
        forall i | 0 <= i < |tail| ensures d !in tail[i] {
          if i == 0 { assert forall x :: x in head[1..] ==> x in head; } else { assert tail[i] == parts[i]; }
        }
      }
      assert JoinWith(parts, d) == [head[0]] + JoinWith(tail, d) by {
        if |parts| > 1 {
          assert JoinWith(tail, d) == tail[0] + [d] + JoinWith(tail[1..], d);
        }
      }
      assert s[0] == head[0] && s[0] != d && s[1..] == JoinWith(tail, d);
      SplitJoin(tail, d);
      assert [[head[0]] + tail[0]] + tail[1..] == parts;
    }
  }

  /** A string without the delimiter is one piece. */
  lemma SplitNoDelimiter(s: string, d: char)
    requires d !in s
    ensures Split(s, d) == [s]
  {
    SplitJoin([s], d);
  }

  /** A string `a;b` with `a` free of the delimiter splits into `a` followed by the pieces of `b`. */
  lemma SplitCons(a: string, b: string, d: char)
    requires d !in a
    ensures Split(a + [d] + b, d) == [a] + Split(b, d)
  {
    var parts := [a] + Split(b, d);
    assert parts[1..] == Split(b, d);
    assert JoinWith(parts, d) == a + [d] + b;
    SplitJoin(parts, d);
  }
}
