/** `encode` looks up the id of each character of a string in turn, and `decode` looks up the
    character of each id in turn and joins them. A key missing from the table raises KeyError at the first such element; here that is a
    `Failure` carrying the key. */
module Codec {
  import opened Wrappers
  import opened Vocabulary
  import opened Tables

  /** `encode`: one id per character, in order, or the first character without an id. */
  function Encode(stoi: map<char, nat>, s: string): (r: Result<seq<nat>, char>)
    ensures r.Success? <==> forall j :: 0 <= j < |s| ==> s[j] in stoi
    ensures r.Success? ==> |r.value| == |s| && forall j :: 0 <= j < |s| ==> r.value[j] == stoi[s[j]]
    ensures r.Failure? ==>
      exists j :: 0 <= j < |s| && s[j] == r.error && r.error !in stoi && forall i :: 0 <= i < j ==> s[i] in stoi
  {
    if s == [] then Success([])
    else if s[0] !in stoi then Failure(s[0])
    else
      match Encode(stoi, s[1..])
      case Failure(c) =>
        assert forall j :: 1 <= j < |s| ==> s[j] == s[1..][j - 1];
        Failure(c)
      case Success(ids) => Success([stoi[s[0]]] + ids)
  }

  /** `decode`: one character per id, in order, or the first id without a character.
      Python ids are arbitrary integers; a negative one is a missing key like any other. */
  function Decode(itos: map<nat, char>, l: seq<int>): (r: Result<string, int>)
    ensures r.Success? <==> forall j :: 0 <= j < |l| ==> l[j] >= 0 && l[j] in itos
    ensures r.Success? ==> |r.value| == |l| && forall j :: 0 <= j < |l| ==> l[j] >= 0 && r.value[j] == itos[l[j] as nat]
    ensures r.Failure? ==>
      exists j :: 0 <= j < |l| && l[j] == r.error && !(r.error >= 0 && r.error in itos)
        && forall i :: 0 <= i < j ==> l[i] >= 0 && l[i] in itos
  {
    if l == [] then Success([])
    else if !(l[0] >= 0 && l[0] in itos) then Failure(l[0])
    else
      match Decode(itos, l[1..])
      case Failure(i) =>
        assert forall j :: 1 <= j < |l| ==> l[j] == l[1..][j - 1];
        Failure(i)
      case Success(text) => Success([itos[l[0] as nat]] + text)
  }

  /** A string encodes exactly when every one of its characters is in the vocabulary,
      and then every id lies in `[0, |chars|)`. */
  lemma EncodeDefinedIff(chars: seq<char>, s: string)
    ensures Encode(Stoi(chars), s).Success? <==> forall c :: c in s ==> c in chars
    ensures Encode(Stoi(chars), s).Success? ==> forall j :: 0 <= j < |s| ==> Encode(Stoi(chars), s).value[j] < |chars|
  {
  }

  /** A list of ids decodes exactly when every id lies in `[0, |chars|)`. */
  lemma DecodeDefinedIff(chars: seq<char>, l: seq<int>)
    ensures Decode(Itos(chars), l).Success? <==> forall j :: 0 <= j < |l| ==> 0 <= l[j] < |chars|
  {
  }

  /** `decode(encode(s)) == s` for every string over the vocabulary. */
  lemma DecodeEncode(chars: seq<char>, s: string)
    requires forall c :: c in s ==> c in chars
    ensures Encode(Stoi(chars), s).Success?
    ensures Decode(Itos(chars), Encode(Stoi(chars), s).value) == Success(s)
  {
    var ids := Encode(Stoi(chars), s).value;
    var r := Decode(Itos(chars), ids);
    assert r.Success?;
    assert r.value == s;
  }

  /** `encode(decode(l)) == l` for every list of ids in `[0, |chars|)`. */
  lemma EncodeDecode(chars: seq<char>, l: seq<int>)
    requires Distinct(chars)
    requires forall j :: 0 <= j < |l| ==> 0 <= l[j] < |chars|
    ensures Decode(Itos(chars), l).Success?
    ensures Encode(Stoi(chars), Decode(Itos(chars), l).value) == Success(l)
  {
    var text := Decode(Itos(chars), l).value;
    forall j | 0 <= j < |l| ensures Stoi(chars)[text[j]] == l[j] {
      StoiAt(chars, l[j]);
    }
    var r := Encode(Stoi(chars), text);
    assert r.Success?;
    assert r.value == l;
  }

  /** Encoding distributes over concatenation, failing on the first missing character of `a + b`. */
  lemma {:induction false} EncodeConcat(stoi: map<char, nat>, a: string, b: string)
    ensures Encode(stoi, a + b) ==
      match Encode(stoi, a)
      case Failure(c) => Failure(c)
      case Success(x) =>
        match Encode(stoi, b)
        case Failure(c) => Failure(c)
        case Success(y) => Success(x + y)
  {
    if a == [] {
      assert a + b == b;
      assert Encode(stoi, a) == Success([]);
      if Encode(stoi, b).Success? {
        assert [] + Encode(stoi, b).value == Encode(stoi, b).value;
      }
    } else {
      assert (a + b)[1..] == a[1..] + b;
      EncodeConcat(stoi, a[1..], b);
      if a[0] in stoi {
        match Encode(stoi, a[1..])
        case Failure(c) =>
        case Success(x) =>
          match Encode(stoi, b)
          case Failure(c) =>
          case Success(y) =>
            assert [stoi[a[0]]] + (x + y) == ([stoi[a[0]]] + x) + y;
      }
    }
  }
}
