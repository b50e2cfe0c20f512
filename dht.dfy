/**
 * The Huffman-table splice of webcam.go (`addMotionDht`).
 *
 * Motion-JPEG frames from a camera leave out the DHT (define Huffman table)
 * segment and rely on the typical tables of ITU-T T.81 Annex K, section K.3.
 * `addMotionDht` splits the frame on the start-of-scan marker FF DA and puts
 * a fixed DHT segment (marker FF C4 then the segment body) just before it.
 */
module MotionDht {
  import opened Imaging
  import opened Wrappers

  const DhtMarker: seq<Byte> := [255, 196]
  const SosMarker: seq<Byte> := [255, 218]

  // ---------------------------------------------------------------------
  // Finding and splitting on the start-of-scan marker (`bytes.Split`)
  // ---------------------------------------------------------------------

  predicate SosAt(s: seq<Byte>, i: int)
  {
    0 <= i && i + 1 < |s| && s[i] == 255 && s[i + 1] == 218
  }

  predicate HasSos(s: seq<Byte>)
  {
    exists i | 0 <= i < |s| :: SosAt(s, i)
  }

  /** `bytes.Index` from position `k`: the first marker at or after `k`. */
  function IndexFrom(s: seq<Byte>, k: nat): (r: Option<nat>)
    requires k <= |s|
    ensures r.Some? ==> k <= r.value && SosAt(s, r.value)
    ensures r.Some? ==> forall i :: k <= i < r.value ==> !SosAt(s, i)
    ensures r.None? ==> forall i :: k <= i ==> !SosAt(s, i)
    decreases |s| - k
  {
    if k + 1 >= |s| then None
    else if s[k] == 255 && s[k + 1] == 218 then Some(k)
    else IndexFrom(s, k + 1)
  }

  /** `bytes.Split(s, SosMarker)`: the pieces between successive non-overlapping markers. */
  function Split(s: seq<Byte>): (parts: seq<seq<Byte>>)
    ensures |parts| >= 1
    ensures |parts[0]| <= |s| && parts[0] == s[..|parts[0]|]
    ensures |parts| == 1 <==> IndexFrom(s, 0).None?
    ensures |parts| == 1 ==> parts[0] == s
    ensures |parts| >= 2 ==> IndexFrom(s, 0) == Some(|parts[0]|)
    decreases |s|
  {
    match IndexFrom(s, 0)
    case None => [s]
    case Some(i) => [s[..i]] + Split(s[i + 2..])
  }

  /** `bytes.Join(parts, SosMarker)`, the inverse of `Split`. */
  function Join(parts: seq<seq<Byte>>): seq<Byte>
    requires |parts| >= 1
    decreases |parts|
  {
    if |parts| == 1 then parts[0] else parts[0] + SosMarker + Join(parts[1..])
  }

  /** Splitting loses nothing: joining the pieces back with the marker gives the frame. */
  lemma {:induction false} JoinSplit(s: seq<Byte>)
    ensures Join(Split(s)) == s
    decreases |s|
  {
    match IndexFrom(s, 0)
    case None =>
    case Some(i) =>
      JoinSplit(s[i + 2..]);
      assert s == s[..i] + SosMarker + s[i + 2..];
  }

  /** No piece contains the marker. */
  lemma {:induction false} SplitPiecesHaveNoSos(s: seq<Byte>, k: nat)
    requires k < |Split(s)|
    ensures !HasSos(Split(s)[k])
    decreases |s|
  {
    match IndexFrom(s, 0)
    case None =>
    case Some(i) =>
      if k == 0 {
        forall j | SosAt(s[..i], j) ensures false {
          assert SosAt(s, j);
        }
      } else {
        SplitPiecesHaveNoSos(s[i + 2..], k - 1);
      }
  }

  /** `bytes.Split` yields a second piece exactly when the frame holds a marker. */
  lemma SplitHasSecondPiece(s: seq<Byte>)
    ensures |Split(s)| >= 2 <==> HasSos(s)
  {
    if HasSos(s) {
      var j :| SosAt(s, j);
      assert IndexFrom(s, 0).Some?;
    }
  }

  // ---------------------------------------------------------------------
  // The splice
  // ---------------------------------------------------------------------

  /**
   * `addMotionDht`. Go indexes `jpegParts[1]`, which panics when the frame
   * holds no marker; the precondition is that index being in range.
   */
  function AddMotionDht(frame: seq<Byte>): (r: seq<Byte>)
    requires |Split(frame)| >= 2
    ensures IndexFrom(frame, 0).Some?
    ensures var i := IndexFrom(frame, 0).value;
      r == frame[..i] + DhtMarker + Dht + frame[i..NextSosOrEnd(frame, i + 2)]
  {
    var parts := Split(frame);
    SpliceShape(frame, |parts[0]|, Dht);
    parts[0] + DhtMarker + Dht + SosMarker + parts[1]
  }

  /** Where the piece that starts at `k` ends: the next marker at or after `k`, or the end. */
  function NextSosOrEnd(s: seq<Byte>, k: nat): (r: nat)
    requires k <= |s|
    ensures k <= r <= |s|
    ensures forall i :: k <= i < r ==> !SosAt(s, i)
  {
    match IndexFrom(s, k)
    case Some(j) => j
    case None => |s|
  }

  /**
   * What the splice does to a frame whose first marker is at `i`, for any
   * inserted segment: the bytes before the marker are kept, FF C4 and the
   * segment are inserted, and the bytes from the marker up to the next
   * marker (or the end) follow; everything from a second marker on is
   * dropped.
   */
  lemma SpliceShape(frame: seq<Byte>, i: nat, segment: seq<Byte>)
    requires IndexFrom(frame, 0) == Some(i)
    ensures |Split(frame)| >= 2
    ensures Split(frame)[0] + DhtMarker + segment + SosMarker + Split(frame)[1]
         == frame[..i] + DhtMarker + segment + frame[i..NextSosOrEnd(frame, i + 2)]
  {
    SplitAtFirst(frame, i);
    var parts, end := Split(frame), NextSosOrEnd(frame, i + 2);
    assert frame[i..end] == SosMarker + parts[1];
    AppendAssoc(parts[0] + DhtMarker + segment, SosMarker, parts[1]);
  }

  /** The first two pieces, by position in the frame. */
  lemma SplitAtFirst(frame: seq<Byte>, i: nat)
    requires IndexFrom(frame, 0) == Some(i)
    ensures |Split(frame)| >= 2
    ensures Split(frame)[0] == frame[..i]
    ensures Split(frame)[1] == frame[i + 2..NextSosOrEnd(frame, i + 2)]
  {
    assert Split(frame) == [frame[..i]] + Split(frame[i + 2..]);
    IndexShift(frame, i + 2);
  }

  lemma AppendAssoc(a: seq<Byte>, b: seq<Byte>, c: seq<Byte>)
    ensures a + b + c == a + (b + c)
  {
  }

  /** Searching a suffix is searching the whole from the suffix's start. */
  lemma IndexShift(s: seq<Byte>, k: nat)
    requires k <= |s|
    ensures Split(s[k..])[0] == s[k..NextSosOrEnd(s, k)]
  {
    var t := s[k..];
    assert forall i | k <= i :: SosAt(s, i) <==> SosAt(t, i - k);
    match IndexFrom(t, 0)
    case None =>
    case Some(j) =>
      assert SosAt(s, j + k);
  }

  /** With exactly one marker the frame grows by the 2 + 418 inserted bytes and nothing is lost. */
  lemma AddMotionDhtOneMarker(frame: seq<Byte>, i: nat)
    requires SosAt(frame, i)
    requires forall j :: SosAt(frame, j) ==> j == i
    ensures |Split(frame)| == 2
    ensures AddMotionDht(frame) == frame[..i] + DhtMarker + Dht + frame[i..]
    ensures |AddMotionDht(frame)| == |frame| + 420
  {
    assert IndexFrom(frame, 0) == Some(i);
    SpliceShape(frame, i, Dht);
    assert IndexFrom(frame, i + 2).None?;
    IndexShift(frame, i + 2);
    AnnexKValid();
  }

  // ---------------------------------------------------------------------
  // The segment is a well-formed DHT body (ITU-T T.81 section B.2.4.2)
  // ---------------------------------------------------------------------

  /** Table class Tc: 0 for DC, 1 for AC. */
  type TableClass = c: nat | c <= 1

  /** Table destination Th: one of four (baseline uses 0 and 1). */
  type Destination = d: nat | d <= 3

  /** One table of a DHT segment: class Tc, destination Th, the 16 counts BITS and the values HUFFVAL. */
  datatype HuffmanTable = HuffmanTable(tc: TableClass, th: Destination, counts: seq<Byte>, values: seq<Byte>)
  {
    /** 16 counts, one per code length, announcing exactly as many codes as there are values. */
    predicate Valid() {
      |counts| == 16 && Sum(counts) == |values|
    }
  }

  /** The number of codes the BITS counts announce. */
  function Sum(s: seq<Byte>): nat
  {
    SumTo(s, |s|)
  }

  function SumTo(s: seq<Byte>, k: nat): nat
    requires k <= |s|
  {
    if k == 0 then 0 else SumTo(s, k - 1) + s[k - 1]
  }

  /** A table's bytes: Tc/Th in one byte, then BITS, then HUFFVAL. */
  function EncodeTable(t: HuffmanTable): (r: seq<Byte>)
    ensures |r| == 1 + |t.counts| + |t.values|
  {
    [t.tc * 16 + t.th] + t.counts + t.values
  }

  function EncodeTables(ts: seq<HuffmanTable>): seq<Byte>
  {
    if ts == [] then [] else EncodeTable(ts[0]) + EncodeTables(ts[1..])
  }

  /** A DHT segment body: the 16-bit length Lh (which counts itself) and the tables. */
  function EncodeSegment(ts: seq<HuffmanTable>): seq<Byte>
    requires |EncodeTables(ts)| + 2 < 0x1_0000
  {
    var lh := |EncodeTables(ts)| + 2;
    [lh / 256, lh % 256] + EncodeTables(ts)
  }

  /** Reads the tables of a segment body after its length field. */
  function ParseTables(s: seq<Byte>): (r: Option<seq<HuffmanTable>>)
    ensures r.Some? ==> forall t <- r.value :: t.Valid()
    decreases |s|
  {
    if s == [] then Some([])
    else if |s| < 17 then None
    else
      var counts := s[1..17];
      var n := Sum(counts);
      if s[0] / 16 > 1 || s[0] % 16 > 3 || |s| < 17 + n then None
      else
        match ParseTables(s[17 + n..])
        case None => None
        case Some(rest) => Some([HuffmanTable(s[0] / 16, s[0] % 16, counts, s[17..17 + n])] + rest)
  }

  /** Reads a segment body: the length field must equal the body's length. */
  function ParseSegment(s: seq<Byte>): Option<seq<HuffmanTable>>
  {
    if |s| < 2 || s[0] as int * 256 + s[1] as int != |s| then None else ParseTables(s[2..])
  }

  /** Parsing recovers the tables that were encoded. */
  lemma {:induction false} ParseEncodeTables(ts: seq<HuffmanTable>)
    requires forall t <- ts :: t.Valid()
    ensures ParseTables(EncodeTables(ts)) == Some(ts)
  {
    if ts != [] {
      var t := ts[0];
      var s := EncodeTables(ts);
      var n := |t.values|;
      assert t in ts;
      assert s == EncodeTable(t) + EncodeTables(ts[1..]);
      assert s[0] == t.tc * 16 + t.th;
      assert s[0] / 16 == t.tc && s[0] % 16 == t.th;
      assert s[1..17] == t.counts;
      assert Sum(s[1..17]) == n;
      assert s[17..17 + n] == t.values;
      assert s[17 + n..] == EncodeTables(ts[1..]);
      ParseEncodeTables(ts[1..]);
      assert HuffmanTable(s[0] / 16, s[0] % 16, s[1..17], s[17..17 + n]) == t;
      assert ts == [t] + ts[1..];
    }
  }

  lemma ParseEncodeSegment(ts: seq<HuffmanTable>)
    requires forall t <- ts :: t.Valid()
    requires |EncodeTables(ts)| + 2 < 0x1_0000
    ensures ParseSegment(EncodeSegment(ts)) == Some(ts)
  {
    var s := EncodeSegment(ts);
    assert s[2..] == EncodeTables(ts);
    ParseEncodeTables(ts);
  }

  /** ITU-T T.81 Annex K, Table K.3, luminance DC differences: Tc = 0, Th = 0. */
  const TableK3: HuffmanTable := HuffmanTable(0, 0,
    [0, 1, 5, 1, 1, 1, 1, 1, 1, 0, 0, 0, 0, 0, 0, 0],
    [
      0, 1, 2, 3, 4, 5, 6, 7, 8, 9, 10, 11
    ])

  /** ITU-T T.81 Annex K, Table K.4, chrominance DC differences: Tc = 0, Th = 1. */
  const TableK4: HuffmanTable := HuffmanTable(0, 1,
    [0, 3, 1, 1, 1, 1, 1, 1, 1, 1, 1, 0, 0, 0, 0, 0],
    [
      0, 1, 2, 3, 4, 5, 6, 7, 8, 9, 10, 11
    ])

  /** ITU-T T.81 Annex K, Table K.5, luminance AC coefficients: Tc = 1, Th = 0. */
  const TableK5: HuffmanTable := HuffmanTable(1, 0,
    [0, 2, 1, 3, 3, 2, 4, 3, 5, 5, 4, 4, 0, 0, 1, 125],
    [
      1, 2, 3, 0, 4, 17, 5, 18, 33, 49, 65, 6, 19, 81, 97, 7,
      34, 113, 20, 50, 129, 145, 161, 8, 35, 66, 177, 193, 21, 82, 209, 240,
      36, 51, 98, 114, 130, 9, 10, 22, 23, 24, 25, 26, 37, 38, 39, 40,
      41, 42, 52, 53, 54, 55, 56, 57, 58, 67, 68, 69, 70, 71, 72, 73,
      74, 83, 84, 85, 86, 87, 88, 89, 90, 99, 100, 101, 102, 103, 104, 105,
      106, 115, 116, 117, 118, 119, 120, 121, 122, 131, 132, 133, 134, 135, 136, 137,
      138, 146, 147, 148, 149, 150, 151, 152, 153, 154, 162, 163, 164, 165, 166, 167,
      168, 169, 170, 178, 179, 180, 181, 182, 183, 184, 185, 186, 194, 195, 196, 197,
      198, 199, 200, 201, 202, 210, 211, 212, 213, 214, 215, 216, 217, 218, 225, 226,
      227, 228, 229, 230, 231, 232, 233, 234, 241, 242, 243, 244, 245, 246, 247, 248,
      249, 250
    ])

  /** ITU-T T.81 Annex K, Table K.6, chrominance AC coefficients: Tc = 1, Th = 1. */
  const TableK6: HuffmanTable := HuffmanTable(1, 1,
    [0, 2, 1, 2, 4, 4, 3, 4, 7, 5, 4, 4, 0, 1, 2, 119],
    [
      0, 1, 2, 3, 17, 4, 5, 33, 49, 6, 18, 65, 81, 7, 97, 113,
      19, 34, 50, 129, 8, 20, 66, 145, 161, 177, 193, 9, 35, 51, 82, 240,
      21, 98, 114, 209, 10, 22, 36, 52, 225, 37, 241, 23, 24, 25, 26, 38,
      39, 40, 41, 42, 53, 54, 55, 56, 57, 58, 67, 68, 69, 70, 71, 72,
      73, 74, 83, 84, 85, 86, 87, 88, 89, 90, 99, 100, 101, 102, 103, 104,
      105, 106, 115, 116, 117, 118, 119, 120, 121, 122, 130, 131, 132, 133, 134, 135,
      136, 137, 138, 146, 147, 148, 149, 150, 151, 152, 153, 154, 162, 163, 164, 165,
      166, 167, 168, 169, 170, 178, 179, 180, 181, 182, 183, 184, 185, 186, 194, 195,
      196, 197, 198, 199, 200, 201, 202, 210, 211, 212, 213, 214, 215, 216, 217, 218,
      226, 227, 228, 229, 230, 231, 232, 233, 234, 242, 243, 244, 245, 246, 247, 248,
      249, 250
    ])

  const AnnexK: seq<HuffmanTable> := [TableK3, TableK4, TableK5, TableK6]

  /**
   * The segment body the source embeds: the length field 01 A2 (418), then
   * Tables K.3 to K.6 in that order, each as Tc/Th, BITS and HUFFVAL. These
   * are the 418 bytes of the literal in `addMotionDht`, in its order.
   */
  const Dht: seq<Byte> := [1, 162] + EncodeTables(AnnexK)

  lemma TableK3Valid()
    ensures TableK3.Valid() && |EncodeTable(TableK3)| == 29
  {
    var cK3 := TableK3.counts;
    assert SumTo(cK3, 1) == 0 && SumTo(cK3, 2) == 1 && SumTo(cK3, 3) == 6 && SumTo(cK3, 4) == 7 && SumTo(cK3, 5) == 8 && SumTo(cK3, 6) == 9 && SumTo(cK3, 7) == 10 && SumTo(cK3, 8) == 11;
    assert SumTo(cK3, 9) == 12 && SumTo(cK3, 10) == 12 && SumTo(cK3, 11) == 12 && SumTo(cK3, 12) == 12 && SumTo(cK3, 13) == 12 && SumTo(cK3, 14) == 12 && SumTo(cK3, 15) == 12 && SumTo(cK3, 16) == 12;
  }

  lemma TableK4Valid()
    ensures TableK4.Valid() && |EncodeTable(TableK4)| == 29
  {
    var cK4 := TableK4.counts;
    assert SumTo(cK4, 1) == 0 && SumTo(cK4, 2) == 3 && SumTo(cK4, 3) == 4 && SumTo(cK4, 4) == 5 && SumTo(cK4, 5) == 6 && SumTo(cK4, 6) == 7 && SumTo(cK4, 7) == 8 && SumTo(cK4, 8) == 9;
    assert SumTo(cK4, 9) == 10 && SumTo(cK4, 10) == 11 && SumTo(cK4, 11) == 12 && SumTo(cK4, 12) == 12 && SumTo(cK4, 13) == 12 && SumTo(cK4, 14) == 12 && SumTo(cK4, 15) == 12 && SumTo(cK4, 16) == 12;
  }

  lemma TableK5Valid()
    ensures TableK5.Valid() && |EncodeTable(TableK5)| == 179
  {
    var cK5 := TableK5.counts;
    assert SumTo(cK5, 1) == 0 && SumTo(cK5, 2) == 2 && SumTo(cK5, 3) == 3 && SumTo(cK5, 4) == 6 && SumTo(cK5, 5) == 9 && SumTo(cK5, 6) == 11 && SumTo(cK5, 7) == 15 && SumTo(cK5, 8) == 18;
    assert SumTo(cK5, 9) == 23 && SumTo(cK5, 10) == 28 && SumTo(cK5, 11) == 32 && SumTo(cK5, 12) == 36 && SumTo(cK5, 13) == 36 && SumTo(cK5, 14) == 36 && SumTo(cK5, 15) == 37 && SumTo(cK5, 16) == 162;
  }

  lemma TableK6Valid()
    ensures TableK6.Valid() && |EncodeTable(TableK6)| == 179
  {
    var cK6 := TableK6.counts;
    assert SumTo(cK6, 1) == 0 && SumTo(cK6, 2) == 2 && SumTo(cK6, 3) == 3 && SumTo(cK6, 4) == 5 && SumTo(cK6, 5) == 9 && SumTo(cK6, 6) == 13 && SumTo(cK6, 7) == 16 && SumTo(cK6, 8) == 20;
    assert SumTo(cK6, 9) == 27 && SumTo(cK6, 10) == 32 && SumTo(cK6, 11) == 36 && SumTo(cK6, 12) == 40 && SumTo(cK6, 13) == 40 && SumTo(cK6, 14) == 41 && SumTo(cK6, 15) == 43 && SumTo(cK6, 16) == 162;
  }

  lemma AnnexKValid()
    ensures forall t <- AnnexK :: t.Valid()
    ensures |EncodeTables(AnnexK)| == 416
  {
    TableK3Valid();
    TableK4Valid();
    TableK5Valid();
    TableK6Valid();
    assert AnnexK[1..][1..][1..][1..] == [];
    assert EncodeTables(AnnexK[1..][1..][1..]) == EncodeTable(TableK6);
    assert EncodeTables(AnnexK[1..][1..]) == EncodeTable(TableK5) + EncodeTable(TableK6);
    assert EncodeTables(AnnexK[1..]) == EncodeTable(TableK4) + EncodeTable(TableK5) + EncodeTable(TableK6);
  }

  /** The embedded segment parses: its length field is its length (418), and it holds Tables K.3 to K.6. */
  lemma DhtWellFormed()
    ensures |Dht| == 418 == Dht[0] as int * 256 + Dht[1] as int
    ensures Dht == EncodeSegment(AnnexK)
    ensures ParseSegment(Dht) == Some(AnnexK)
  {
    DhtHeader();
    SegmentOf416(AnnexK);
    ParseEncodeSegment(AnnexK);
  }

  lemma SegmentOf416(ts: seq<HuffmanTable>)
    requires |EncodeTables(ts)| == 416
    ensures EncodeSegment(ts) == [1, 162] + EncodeTables(ts)
  {
  }

  lemma DhtHeader()
    ensures forall t <- AnnexK :: t.Valid()
    ensures |EncodeTables(AnnexK)| == 416
    ensures |Dht| == 418 && Dht[0] == 1 && Dht[1] == 162
  {
    AnnexKValid();
  }

  /** The four tables are DC 0, DC 1, AC 0, AC 1 with 12, 12, 162 and 162 values. */
  lemma AnnexKShape()
    ensures |AnnexK| == 4
    ensures AnnexK[0].tc == 0 && AnnexK[0].th == 0 && |AnnexK[0].values| == 12
    ensures AnnexK[1].tc == 0 && AnnexK[1].th == 1 && |AnnexK[1].values| == 12
    ensures AnnexK[2].tc == 1 && AnnexK[2].th == 0 && |AnnexK[2].values| == 162
    ensures AnnexK[3].tc == 1 && AnnexK[3].th == 1 && |AnnexK[3].values| == 162
  {
    TableK3Valid();
    TableK4Valid();
    TableK5Valid();
    TableK6Valid();
  }
}
