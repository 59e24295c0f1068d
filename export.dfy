/** Export of an id list: `np.array(ids, dtype=np.uint16)` followed by `tofile`, which writes
    each value as two bytes, low byte first, with no header. */
module Export {

  type U16 = x: int | 0 <= x < 0x1_0000
  type Byte = x: int | 0 <= x < 0x100

  /** The value of a little-endian pair of bytes. */
  function Word(lo: Byte, hi: Byte): U16
  {
    lo as int + 0x100 * hi as int
  }

  /** Every id fits in 16 bits. */
  ghost predicate AllFit(ids: seq<nat>) {
    forall j :: 0 <= j < |ids| ==> ids[j] < 0x1_0000
  }

  /** The conversion to `uint16`: an id that does not fit wraps around modulo 2^16. */
  function ToUint16(ids: seq<nat>): (r: seq<U16>)
    ensures |r| == |ids|
    ensures forall j :: 0 <= j < |ids| ==> r[j] == ids[j] % 0x1_0000
  {
    seq(|ids|, j requires 0 <= j < |ids| => ids[j] % 0x1_0000)
  }

  /** The conversion is lossless exactly when every id is below 2^16. */
  lemma Uint16Lossless(ids: seq<nat>)
    ensures ToUint16(ids) == ids <==> AllFit(ids)
  {
    var vals := ToUint16(ids);
    if AllFit(ids) {
      forall j | 0 <= j < |ids| ensures vals[j] == ids[j] {
        assert ids[j] < 0x1_0000;
      }
      assert vals == ids;
    } else {
      var j :| 0 <= j < |ids| && ids[j] >= 0x1_0000;
      assert vals[j] < 0x1_0000 <= ids[j];
    }
  }

  /** `tofile`: two bytes per value, little-endian. */
  function ToFile(vals: seq<U16>): (bytes: seq<Byte>)
    ensures |bytes| == 2 * |vals|
    ensures forall j :: 0 <= j < |vals| ==> Word(bytes[2 * j], bytes[2 * j + 1]) == vals[j]
  {
    if vals == [] then []
    else
      var rest := ToFile(vals[1..]);
      assert forall j :: 1 <= j < |vals| ==> Word(rest[2 * (j - 1)], rest[2 * (j - 1) + 1]) == vals[j];
      [vals[0] % 0x100, vals[0] / 0x100] + rest
  }

  /** Reading a file back as `uint16` values, low byte first; a trailing odd byte is ignored. */
  function FromFile(bytes: seq<Byte>): (vals: seq<U16>)
    ensures |vals| == |bytes| / 2
    decreases |bytes|
  {
    if |bytes| < 2 then []
    else [Word(bytes[0], bytes[1])] + FromFile(bytes[2..])
  }

  /** Reading back what was written gives the same values. */
  lemma {:induction false} FromFileToFile(vals: seq<U16>)
    ensures FromFile(ToFile(vals)) == vals
  {
    if vals != [] {
      FromFileToFile(vals[1..]);
      assert ToFile(vals)[2..] == ToFile(vals[1..]);
    }
  }

  /** Writing ids out and reading them back is the identity exactly when every id is below 2^16. */
  lemma ExportRoundTrip(ids: seq<nat>)
    ensures FromFile(ToFile(ToUint16(ids))) == ids <==> AllFit(ids)
  {
    FromFileToFile(ToUint16(ids));
    Uint16Lossless(ids);
  }

  /** Every even-length file is the image of the values read from it. */
  lemma {:induction false} ToFileFromFile(bytes: seq<Byte>)
    requires |bytes| % 2 == 0
    ensures ToFile(FromFile(bytes)) == bytes
    decreases |bytes|
  {
    if bytes != [] {
      ToFileFromFile(bytes[2..]);
      var vals := FromFile(bytes);
      assert vals[1..] == FromFile(bytes[2..]);
      assert bytes == [bytes[0], bytes[1]] + bytes[2..];
    }
  }
}
