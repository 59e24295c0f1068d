# Character-level corpus preparation, modelled in Dafny

This project models the character tokenizer of the Wodehouse data-preparation script
(`config/wodehouse_char/prepare.py`). The script reads the corpus text and builds its vocabulary:
`chars` is the sorted list of distinct characters, and `vocab_size` is its length. It then builds
the two lookup tables `stoi` (character to id) and `itos` (id to character), and defines `encode`
and `decode` over them. Next it cuts the corpus into a 90% training prefix and a 10% validation
suffix, encodes both halves, converts the ids to `uint16` and writes each array to `train.bin` /
`val.bin` as two little-endian bytes per id. Finally it keeps `vocab_size`, `itos` and `stoi` as
the `meta` record.

The script is a sequence of expressions and comprehensions, so the model is made of pure functions
and lemmas:

- `Wrappers`: `Result`. A lookup of a missing key, which raises `KeyError` in Python, is a `Failure`
  that carries that key.
- `Vocabulary`: `CharSet` (`set(data)`), `SortedList` (`sorted(list(...))`), `Chars`, `VocabSize`,
  and the proof that a sorted, duplicate-free list of the corpus's characters is unique.
- `Tables`: `Stoi` and `Itos`. `Stoi` inserts the pairs of `enumerate(chars)` in order, so a later
  pair overwrites an earlier one, as the dict comprehension does. It is therefore defined for any list.
- `Codec`: `Encode` and `Decode`, their error cases, both round trips, and the proof that encoding
  distributes over concatenation.
- `Split`: the split offset `int(n*0.9)` as the exact integer `n * 9 / 10`, and the two halves.
- `Export`: the `uint16` conversion, which wraps modulo 2^16, and the byte layout of `tofile`.
  `FromFile` reads such a file back. It is the inverse that the lossless-export statements are
  stated against.
- `Pipeline`: one run `Prepare(data)` from corpus to meta record, ids and file bytes, with lemmas
  about the whole run.

## Model

| member | source | states |
|---|---|---|
| Vocabulary.CharSet | config/wodehouse_char/prepare.py:38 | `set(data)` holds exactly the characters occurring in the corpus |
| Vocabulary.SortedList | config/wodehouse_char/prepare.py:38 | sorting a set of characters gives a strictly increasing list with exactly the set's elements and as many entries as the set |
| Vocabulary.Chars | config/wodehouse_char/prepare.py:38 | `chars` is strictly increasing (sorted, no duplicates) and contains a character iff it occurs in the corpus |
| Vocabulary.VocabSize | config/wodehouse_char/prepare.py:39 | `vocab_size` is the number of distinct characters, is at most the corpus length, and is 0 exactly for the empty corpus |
| Vocabulary.DistinctCount | config/wodehouse_char/prepare.py:38-39 | a text has no more distinct characters than characters, and at least one if it is non-empty |
| Vocabulary.SortedUnique | config/wodehouse_char/prepare.py:38 | two strictly increasing character lists with the same elements are equal |
| Vocabulary.CharsCharacterised | config/wodehouse_char/prepare.py:38 | any strictly increasing list holding exactly the corpus's characters is `chars` |
| Tables.Stoi | config/wodehouse_char/prepare.py:44 | `stoi` has key set `set(chars)`; each key's id is a position of `chars` holding that key, so every id is below `len(chars)` |
| Tables.Itos | config/wodehouse_char/prepare.py:45 | `itos` has key set exactly `[0, len(chars))` and maps each id `i` to `chars[i]` |
| Tables.StoiAt | config/wodehouse_char/prepare.py:44 | over a duplicate-free `chars`, `stoi[chars[i]] == i` |
| Tables.TablesInverse | config/wodehouse_char/prepare.py:44-45 | over a duplicate-free `chars`, `itos[stoi[c]] == c` for every key of `stoi` and `stoi[itos[i]] == i` for every key of `itos` |
| Tables.TableSizes | config/wodehouse_char/prepare.py:44-45 | over a duplicate-free `chars`, `len(stoi) == len(itos) == len(chars)` |
| Codec.Encode | config/wodehouse_char/prepare.py:46-47 | encoding succeeds iff every character has an id; then it has one id per character, in order, each `stoi[s[j]]`; otherwise it fails with the first character that has no id |
| Codec.Decode | config/wodehouse_char/prepare.py:48-49 | decoding succeeds iff every id is a non-negative key of `itos`; then it has one character per id, in order, each `itos[l[j]]`; otherwise it fails with the first id that is not a key |
| Codec.EncodeDefinedIff | config/wodehouse_char/prepare.py:46-47 | with the table of `chars`, a string encodes iff all its characters are in `chars`, and its ids are then below `len(chars)` |
| Codec.DecodeDefinedIff | config/wodehouse_char/prepare.py:48-49 | with the table of `chars`, an id list decodes iff all its ids lie in `[0, len(chars))` |
| Codec.DecodeEncode | config/wodehouse_char/prepare.py:46-49 | `decode(encode(s)) == s` for every string over the vocabulary, whether or not it has duplicates |
| Codec.EncodeDecode | config/wodehouse_char/prepare.py:46-49 | `encode(decode(l)) == l` for every id list whose ids are in `[0, vocab_size)` |
| Codec.EncodeConcat | config/wodehouse_char/prepare.py:46-47 | `encode(a + b)` is `encode(a) + encode(b)` when both succeed, and otherwise fails with the first missing character of `a`, else of `b` |
| Split.SplitOffset | config/wodehouse_char/prepare.py:52-54 | the offset is `floor(0.9 * n)`, i.e. `10k <= 9n < 10k + 10`, and never exceeds `n` |
| Split.TrainVal | config/wodehouse_char/prepare.py:52-54 | `train_data + val_data == data`, with `len(train_data)` the split offset and the rest in `val_data` |
| Split.SplitPositions | config/wodehouse_char/prepare.py:53-54 | each corpus position below the offset is in the training half at the same index, and each position at or above it is in the validation half, shifted by the offset |
| Split.RecordedRun | config/wodehouse_char/prepare.py:77-82 | 1115394 characters split into 1003854 training and 111540 validation characters |
| Export.ToUint16 | config/wodehouse_char/prepare.py:63-64 | the `uint16` array has one entry per id, each the id modulo 2^16 |
| Export.Uint16Lossless | config/wodehouse_char/prepare.py:63-64 | the conversion keeps every id iff every id is below 2^16 |
| Export.ToFile | config/wodehouse_char/prepare.py:65-66 | the file has exactly two bytes per value, and bytes `2j`, `2j+1` read little-endian give value `j` |
| Export.FromFileToFile | config/wodehouse_char/prepare.py:65-66 | reading a written file back gives the values that were written |
| Export.ToFileFromFile | config/wodehouse_char/prepare.py:65-66 | every even-length byte string is the file of the values read from it |
| Export.ExportRoundTrip | config/wodehouse_char/prepare.py:63-66 | converting, writing and reading back an id list returns it iff every id is below 2^16 |
| Pipeline.PrepareParts | config/wodehouse_char/prepare.py:38-66 | a run always succeeds; its meta is `(len(chars), itos, stoi)`, its ids are the corpus's ids cut at the split offset, and its files are those ids exported |
| Pipeline.PrepareSucceeds | config/wodehouse_char/prepare.py:52-58 | both halves encode because the vocabulary comes from the whole corpus, and `encode(train) + encode(val) == encode(data)`, with the cut at the split offset |
| Pipeline.MetaTables | config/wodehouse_char/prepare.py:69-73 | the stored `vocab_size` counts the distinct characters, `stoi`'s keys are the corpus's characters, and `itos`/`stoi` are inverse bijections onto `[0, vocab_size)` with `vocab_size` entries each |
| Pipeline.MetaOfChars | config/wodehouse_char/prepare.py:44-45 | the meta record built from a duplicate-free list has inverse tables of the right size |
| Pipeline.MetaDecodesHalves | config/wodehouse_char/prepare.py:46-58 | the stored `itos` decodes each half's ids back to that half's text |
| Pipeline.ExportSizes | config/wodehouse_char/prepare.py:57-66 | `train.bin` is `2 * int(0.9n)` bytes and `val.bin` is `2 * (n - int(0.9n))` bytes |
| Pipeline.ExportLossless | config/wodehouse_char/prepare.py:57-66 | reading both files back gives the ids unchanged iff `vocab_size <= 65536` |
| Pipeline.HalvesRoundTrip | config/wodehouse_char/prepare.py:63-66 | both halves of an id list survive export iff every id of the whole list is below 2^16 |
| Pipeline.AllFitSplit | config/wodehouse_char/prepare.py:63-64 | every id fits in 16 bits iff every id of each half does |
| Pipeline.IdsBelowVocabSize | config/wodehouse_char/prepare.py:38-47 | every id of the encoded corpus is below `vocab_size` |
| Pipeline.IdOccurs | config/wodehouse_char/prepare.py:38-47 | every id below `vocab_size` occurs in the encoded corpus |
| Pipeline.EmptyCorpus | config/wodehouse_char/prepare.py:38-66 | the empty corpus gives vocabulary size 0, empty tables, empty halves and empty files |
| Pipeline.VocabularyEncodesToPositions | config/wodehouse_char/prepare.py:44-47 | a duplicate-free vocabulary encoded with its own table gives the ids `0, 1, 2, ...` |
| Pipeline.AbcChars | config/wodehouse_char/prepare.py:38 | the corpus "abcabc" has `chars == "abc"` |
| Pipeline.AbcEncode | config/wodehouse_char/prepare.py:44-47 | with the table of "abc", "abc" encodes to `[0, 1, 2]` |
| Pipeline.AbcExample | config/wodehouse_char/prepare.py:38-66 | with the vocabulary of "abcabc", the string "abc" encodes to `[0, 1, 2]` and exports to 6 bytes, and the corpus "abcabc" is cut at offset 5 into "abcab" and "c" |
| Pipeline.AbcSplit | config/wodehouse_char/prepare.py:52-54 | the corpus "abcabc" (6 characters) is cut at offset 5 into training "abcab" and validation "c" |

## Left out

- Corpus download and the file-existence check that skips it (`prepare.py:21-31`) are left out. They are network and file I/O.
- Reading the corpus file, the `print` lines and the `pickle.dump` of `meta` are left out (`prepare.py:33-35, 40-41, 59-60, 74-75`). They are I/O. The pickled record is modelled as the `Meta` value it holds.
- `config/wodehouse/prepare.py` is not part of this model. It encodes with the GPT-2 byte-pair tokenizer of an external library. Its 90/10 split is the same as the one modelled in `Split`.
- Split.SplitOffset: does not reproduce the floating-point product `n*0.9`. It computes the exact `floor(9n/10)` instead. `0.9` rounds slightly upward as a double, so the two agree whenever `n` is below about 2^49 characters. That agreement is argued here, not proved.
- Export.ToUint16: models the conversion as wrap-around modulo 2^16 (the long-standing numpy behaviour). Recent numpy releases raise `OverflowError` for an out-of-range Python integer instead. Either way, the export is only correct while `vocab_size <= 65536`, and `Pipeline.ExportLossless` states that bound.
- Export.ToFile: assumes the little-endian byte order. `tofile` writes in the machine's native byte order.
- Characters are Dafny `char` values ordered by code point, like Python's `str` ordering. UTF-8 decoding of the file is not modelled.
