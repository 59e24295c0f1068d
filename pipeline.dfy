/** The whole character-level preparation run, from the corpus text to the two exported
    id files and the `meta` record: derive the vocabulary from the full corpus, build the
    tables, split, encode both halves, convert to `uint16` and lay out the bytes. */
module Pipeline {
  import opened Wrappers
  import opened Vocabulary
  import opened Tables
  import opened Codec
  import opened Split
  import opened Export

  /** The pickled `meta` record. */
  datatype Meta = Meta(vocabSize: nat, itos: map<nat, char>, stoi: map<char, nat>)

  /** What one run produces: the meta record, the ids of both halves and the bytes of
      `train.bin` and `val.bin`. */
  datatype Output = Output(meta: Meta, trainIds: seq<nat>, valIds: seq<nat>, trainBin: seq<Byte>, valBin: seq<Byte>)

  /** One run over corpus `data`. It fails only if a half holds a character the vocabulary lacks. */
  function Prepare(data: string): (r: Result<Output, char>)
  {
    var chars := Chars(data);
    var stoi := Stoi(chars);
    var itos := Itos(chars);
    var (trainData, valData) := TrainVal(data);
    var trainIds :- Encode(stoi, trainData);
    var valIds :- Encode(stoi, valData);
    Success(Output(Meta(|chars|, itos, stoi), trainIds, valIds,
                   ToFile(ToUint16(trainIds)), ToFile(ToUint16(valIds))))
  }

  /** The parts of a run, named: the tables of `Chars(data)`, the ids of the corpus cut at the
      split offset, and their files. */
  lemma PrepareParts(data: string)
    ensures Encode(Stoi(Chars(data)), data).Success?
    ensures
      var chars := Chars(data);
      var ids := Encode(Stoi(chars), data).value;
      var k := SplitOffset(|data|);
      k <= |ids| &&
      Prepare(data) == Success(Output(Meta(|chars|, Itos(chars), Stoi(chars)), ids[..k], ids[k..],
                                      ToFile(ToUint16(ids[..k])), ToFile(ToUint16(ids[k..]))))
  {
    var stoi := Stoi(Chars(data));
    var (trainData, valData) := TrainVal(data);
    EncodeConcat(stoi, trainData, valData);
    var ids := Encode(stoi, data).value;
    var x := Encode(stoi, trainData).value;
    var y := Encode(stoi, valData).value;
    assert x + y == ids;
    assert ids[..|x|] == x && ids[|x|..] == y;
  }

  /** Because the vocabulary is derived from the whole corpus before the split, both halves
      always encode, and their ids are the ids of the corpus cut at the split offset. */
  lemma PrepareSucceeds(data: string)
    ensures Prepare(data).Success?
    ensures Prepare(data).value.trainIds + Prepare(data).value.valIds == Encode(Stoi(Chars(data)), data).value
    ensures |Prepare(data).value.trainIds| == SplitOffset(|data|)
  {
    PrepareParts(data);
    var ids := Encode(Stoi(Chars(data)), data).value;
    var k := SplitOffset(|data|);
    CutConcat(ids, k);
  }

  lemma CutConcat(ids: seq<nat>, k: nat)
    requires k <= |ids|
    ensures ids[..k] + ids[k..] == ids
  {
  }

  /** The meta record: `vocab_size` counts the distinct characters, `itos` and `stoi` are inverse
      bijections between those characters and `[0, vocab_size)`, and both tables have `vocab_size` entries. */
  lemma MetaTables(data: string)
    ensures Prepare(data).Success?
    ensures Prepare(data).value.meta.vocabSize == |CharSet(data)|
    ensures forall c :: c in Prepare(data).value.meta.stoi <==> c in data
    ensures InverseTables(Prepare(data).value.meta)
  {
    PrepareParts(data);
    var chars := Chars(data);
    assert VocabSize(data) == |chars|;
    StrictlyIncreasingIsDistinct(chars);
    MetaOfChars(chars);
  }

  /** `itos` is total over `[0, vocab_size)`, the two tables undo each other, and both have
      `vocab_size` entries. */
  ghost predicate InverseTables(m: Meta) {
    && (forall i: nat :: i in m.itos <==> i < m.vocabSize)
    && (forall c :: c in m.stoi ==> m.stoi[c] in m.itos && m.itos[m.stoi[c]] == c)
    && (forall i: nat :: i in m.itos ==> m.itos[i] in m.stoi && m.stoi[m.itos[i]] == i)
    && |m.stoi| == |m.itos| == m.vocabSize
  }

  /** The meta record of a duplicate-free character list has inverse tables. */
  lemma MetaOfChars(chars: seq<char>)
    requires Distinct(chars)
    ensures InverseTables(Meta(|chars|, Itos(chars), Stoi(chars)))
  {
    TablesInverse(chars);
    TableSizes(chars);
  }

  /** The stored meta record decodes each half's ids back to that half's text. */
  lemma MetaDecodesHalves(data: string)
    ensures Prepare(data).Success?
    ensures Decode(Prepare(data).value.meta.itos, Prepare(data).value.trainIds) == Success(TrainVal(data).0)
    ensures Decode(Prepare(data).value.meta.itos, Prepare(data).value.valIds) == Success(TrainVal(data).1)
  {
    var chars := Chars(data);
    var (trainData, valData) := TrainVal(data);
    var stoi := Stoi(chars);
    EncodeConcat(stoi, trainData, valData);
    StrictlyIncreasingIsDistinct(chars);
    assert forall c :: c in trainData ==> c in data;
    assert forall c :: c in valData ==> c in data;
    DecodeEncode(chars, trainData);
    DecodeEncode(chars, valData);
  }

  /** Each exported file holds two bytes per token. */
  lemma ExportSizes(data: string)
    ensures Prepare(data).Success?
    ensures |Prepare(data).value.trainBin| == 2 * SplitOffset(|data|)
    ensures |Prepare(data).value.valBin| == 2 * (|data| - SplitOffset(|data|))
  {
    PrepareParts(data);
  }

  /** Reading `train.bin` and `val.bin` back gives every id unchanged exactly when the
      vocabulary has at most 2^16 characters; past that, some id of the corpus wraps around. */
  lemma ExportLossless(data: string)
    ensures Prepare(data).Success?
    ensures
      var out := Prepare(data).value;
      (FromFile(out.trainBin) == out.trainIds && FromFile(out.valBin) == out.valIds) <==> VocabSize(data) <= 0x1_0000
  {
    PrepareParts(data);
    var chars := Chars(data);
    var ids := Encode(Stoi(chars), data).value;
    HalvesRoundTrip(ids, SplitOffset(|data|));
    if |chars| <= 0x1_0000 {
      IdsBelowVocabSize(chars, data);
    } else {
      var j := IdOccurs(chars, data, 0x1_0000);
    }
  }

  /** Both halves of an id list survive the export exactly when every id is below 2^16. */
  lemma HalvesRoundTrip(ids: seq<nat>, k: nat)
    requires k <= |ids|
    ensures (FromFile(ToFile(ToUint16(ids[..k]))) == ids[..k] && FromFile(ToFile(ToUint16(ids[k..]))) == ids[k..])
            <==> AllFit(ids)
  {
    ExportRoundTrip(ids[..k]);
    ExportRoundTrip(ids[k..]);
    AllFitSplit(ids, k);
  }

  lemma AllFitSplit(ids: seq<nat>, k: nat)
    requires k <= |ids|
    ensures AllFit(ids) <==> AllFit(ids[..k]) && AllFit(ids[k..])
  {
    if !AllFit(ids) {
      var j :| 0 <= j < |ids| && ids[j] >= 0x1_0000;
      if j < k {
        assert ids[..k][j] == ids[j];
      } else {
        assert ids[k..][j - k] == ids[j];
      }
    }
  }

  /** Every id of the corpus is below the vocabulary size. */
  lemma IdsBelowVocabSize(chars: seq<char>, data: string)
    requires chars == Chars(data)
    ensures Encode(Stoi(chars), data).Success?
    ensures forall j :: 0 <= j < |data| ==> Encode(Stoi(chars), data).value[j] < |chars|
  {
    var stoi := Stoi(chars);
    forall j | 0 <= j < |data| ensures data[j] in stoi && stoi[data[j]] < |chars| {
      assert data[j] in data;
    }
  }

  /** Every id of the vocabulary occurs in the encoded corpus. */
  lemma IdOccurs(chars: seq<char>, data: string, id: nat) returns (j: nat)
    requires chars == Chars(data)
    requires id < |chars|
    ensures Encode(Stoi(chars), data).Success?
    ensures j < |data| && Encode(Stoi(chars), data).value[j] == id
  {
    IdsBelowVocabSize(chars, data);
    assert chars[id] in chars;
    j :| 0 <= j < |data| && data[j] == chars[id];
    StrictlyIncreasingIsDistinct(chars);
    StoiAt(chars, id);
    assert Stoi(chars)[data[j]] == id;
  }

  /** The empty corpus: empty vocabulary, empty tables, empty halves and empty files. */
  lemma EmptyCorpus()
    ensures Prepare("") == Success(Output(Meta(0, map[], map[]), [], [], [], []))
  {
    var chars := Chars("");
    assert chars == [];
    assert Itos(chars) == map[];
  }

  /** The corpus "abcabc" has vocabulary "abc". */
  lemma AbcChars()
    ensures Chars("abcabc") == "abc"
  {
    assert forall c :: c in "abc" <==> c in "abcabc" by {
      assert "abcabc"[0] == 'a' && "abcabc"[1] == 'b' && "abcabc"[2] == 'c';
    }
    CharsCharacterised("abcabc", "abc");
  }

  /** A duplicate-free vocabulary, encoded with its own table, gives the ids 0, 1, 2, ... */
  lemma {:induction false} VocabularyEncodesToPositions(chars: seq<char>)
    requires Distinct(chars)
    ensures Encode(Stoi(chars), chars).Success?
    ensures forall j :: 0 <= j < |chars| ==> Encode(Stoi(chars), chars).value[j] == j
  {
    forall j | 0 <= j < |chars| ensures Stoi(chars)[chars[j]] == j {
      StoiAt(chars, j);
    }
  }

  /** With the vocabulary of "abcabc" (ids a:0, b:1, c:2), the string "abc" encodes to [0, 1, 2]
      and exports to 6 bytes; the corpus itself is cut at 5, into "abcab" and "c". */
  lemma AbcExample()
    ensures Encode(Stoi(Chars("abcabc")), "abc") == Success([0, 1, 2])
    ensures |ToFile(ToUint16([0, 1, 2]))| == 6
    ensures TrainVal("abcabc") == ("abcab", "c")
  {
    AbcChars();
    AbcEncode("abc");
    AbcSplit("abcabc");
  }

  lemma AbcSplit(corpus: string)
    requires corpus == "abcabc"
    ensures TrainVal(corpus) == ("abcab", "c")
  {
    assert SplitOffset(|corpus|) == 5;
    assert corpus[..5] == "abcab";
    assert corpus[5..] == "c";
  }

  lemma AbcEncode(abc: string)
    requires abc == "abc"
    ensures Encode(Stoi(abc), abc) == Success([0, 1, 2])
  {
    assert StrictlyIncreasing(abc);
    StrictlyIncreasingIsDistinct(abc);
    VocabularyEncodesToPositions(abc);
    var ids := Encode(Stoi(abc), abc).value;
    assert ids == [0, 1, 2];
  }
}
