/** Vocabulary derivation: `chars` is the corpus's distinct characters in ascending order,
    and `vocab_size` is how many there are.
    Characters are ordered by code point, which is Dafny's order on `char`. */
module Vocabulary {

  /** Sorted with no duplicates. */
  ghost predicate StrictlyIncreasing(s: seq<char>) {
    forall i, j :: 0 <= i < j < |s| ==> s[i] < s[j]
  }

  /** No character occurs twice. */
  ghost predicate Distinct(s: seq<char>) {
    forall i, j :: 0 <= i < j < |s| ==> s[i] != s[j]
  }

  /** `set(data)`: the distinct characters occurring in the corpus. */
  function CharSet(data: string): (cs: set<char>)
    ensures forall c :: c in cs <==> c in data
  {
    set c | c in data
  }

  lemma {:induction false} MinimumExists(s: set<char>)
    requires s != {}
    ensures exists m :: m in s && forall c :: c in s ==> m <= c
    decreases |s|
  {
    var x :| x in s;
    if s != {x} {
      MinimumExists(s - {x});
      var m' :| m' in s - {x} && forall c :: c in s - {x} ==> m' <= c;
      var m := if x <= m' then x else m';
      forall c | c in s ensures m <= c {
        if c != x {
          assert c in s - {x};
        }
      }
    }
  }

  /** The least character of a non-empty set. */
  function Minimum(s: set<char>): (m: char)
    requires s != {}
    ensures m in s && forall c :: c in s ==> m <= c
  {
    MinimumExists(s);
    var m :| m in s && forall c :: c in s ==> m <= c;
    m
  }

  /** `sorted(list(s))`: the elements of a set in ascending order, by repeatedly taking the least. */
  function SortedList(s: set<char>): (r: seq<char>)
    ensures StrictlyIncreasing(r)
    ensures forall c :: c in r <==> c in s
    ensures |r| == |s|
    decreases |s|
  {
    if s == {} then []
    else
      var m := Minimum(s);
      [m] + SortedList(s - {m})
  }

  /** `chars`: every character of the corpus, once each, in ascending order. */
  function Chars(data: string): (chars: seq<char>)
    ensures StrictlyIncreasing(chars)
    ensures forall c :: c in chars <==> c in data
  {
    SortedList(CharSet(data))
  }

  /** `vocab_size`: the number of distinct characters, never more than the corpus length. */
  function VocabSize(data: string): (n: nat)
    ensures n == |CharSet(data)|
    ensures n <= |data|
    ensures n == 0 <==> data == []
  {
    DistinctCount(data);
    |Chars(data)|
  }

  lemma {:induction false} DistinctCount(data: string)
    ensures |CharSet(data)| <= |data|
    ensures data != [] ==> |CharSet(data)| > 0
  {
    if data != [] {
      DistinctCount(data[1..]);
      assert CharSet(data) == {data[0]} + CharSet(data[1..]);
    }
  }

  lemma StrictlyIncreasingIsDistinct(s: seq<char>)
    requires StrictlyIncreasing(s)
    ensures Distinct(s)
  {
  }

  /** A sorted duplicate-free list is determined by its elements. */
  lemma {:induction false} SortedUnique(a: seq<char>, b: seq<char>)
    requires StrictlyIncreasing(a) && StrictlyIncreasing(b)
    requires forall c :: c in a <==> c in b
    ensures a == b
  {
    assert a != [] ==> a[0] in b;
    assert b != [] ==> b[0] in a;
    if a != [] && b != [] {
      assert a[0] == b[0] by {
        assert b[0] in a;
        assert a[0] in b;
      }
      forall c | c in a[1..] ensures c in b[1..] {
        var i :| 1 <= i < |a| && a[i] == c;
        assert c in b && c != b[0];
      }
      forall c | c in b[1..] ensures c in a[1..] {
        var i :| 1 <= i < |b| && b[i] == c;
        assert c in a && c != a[0];
      }
      SortedUnique(a[1..], b[1..]);
      assert a == [a[0]] + a[1..];
      assert b == [b[0]] + b[1..];
    }
  }

  /** `chars` is the only sorted, duplicate-free list of exactly the corpus's characters. */
  lemma CharsCharacterised(data: string, s: seq<char>)
    requires StrictlyIncreasing(s)
    requires forall c :: c in s <==> c in data
    ensures s == Chars(data)
  {
    SortedUnique(s, Chars(data));
  }
}
