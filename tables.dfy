/** The two lookup tables built by enumerating the vocabulary: `stoi` sends each character
    to its position, and `itos` sends each position to its character. */
module Tables {
  import opened Vocabulary

  /** `stoi`. A dict comprehension inserts its pairs in order, a later pair overwriting an earlier
      one with the same key; this builds the map the same way, so it is defined for any list. */
  function Stoi(chars: seq<char>): (stoi: map<char, nat>)
    ensures forall c :: c in stoi <==> c in chars
    ensures forall c :: c in stoi ==> stoi[c] < |chars| && chars[stoi[c]] == c
    decreases |chars|
  {
    if chars == [] then map[]
    else
      var last := |chars| - 1;
      Stoi(chars[..last])[chars[last] := last]
  }

  /** `itos`: position `i` of `chars` under key `i`. */
  function Itos(chars: seq<char>): (itos: map<nat, char>)
    ensures forall i: nat :: i in itos <==> i < |chars|
    ensures forall i: nat :: i < |chars| ==> itos[i] == chars[i]
  {
    map i: nat | i < |chars| :: chars[i]
  }

  /** Over a duplicate-free list, every character's id is its position. */
  lemma StoiAt(chars: seq<char>, i: nat)
    requires Distinct(chars)
    requires i < |chars|
    ensures chars[i] in Stoi(chars) && Stoi(chars)[chars[i]] == i
  {
  }

  /** The two tables are inverse bijections between the characters of `chars` and `[0, |chars|)`. */
  lemma TablesInverse(chars: seq<char>)
    requires Distinct(chars)
    ensures forall c :: c in Stoi(chars) ==> Stoi(chars)[c] in Itos(chars) && Itos(chars)[Stoi(chars)[c]] == c
    ensures forall i: nat :: i in Itos(chars) ==> Itos(chars)[i] in Stoi(chars) && Stoi(chars)[Itos(chars)[i]] == i
  {
    forall i: nat | i in Itos(chars)
      ensures Itos(chars)[i] in Stoi(chars) && Stoi(chars)[Itos(chars)[i]] == i
    {
      StoiAt(chars, i);
    }
  }

  /** The set `{0, ..., n - 1}`. */
  function Range(n: nat): (r: set<nat>)
    ensures forall i: nat :: i in r <==> i < n
    ensures |r| == n
  {
    if n == 0 then {}
    else
      Range(n - 1) + {n - 1}
  }

  /** `len(stoi) == len(itos) == len(chars)` when `chars` has no duplicates. */
  lemma {:induction false} TableSizes(chars: seq<char>)
    requires Distinct(chars)
    ensures |Stoi(chars)| == |chars|
    ensures |Itos(chars)| == |chars|
  {
    assert Itos(chars).Keys == Range(|chars|);
    if chars != [] {
      var last := |chars| - 1;
      TableSizes(chars[..last]);
      assert chars[last] !in Stoi(chars[..last]);
      assert Stoi(chars).Keys == Stoi(chars[..last]).Keys + {chars[last]};
    }
  }
}
