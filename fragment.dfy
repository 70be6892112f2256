/** Fragment_t: a single piece of DNA from which a group of reads was
    sequenced, with its two end reads, its parent library, its child reads and
    its fragment type.

    The members inherited from Universal_t (internal and external id, status,
    comment) are not part of this model. */
module Fragments {
  import opened NCodes
  import opened Biserial

  /** ID_t: a 32-bit unsigned record id; 0 is the null id. */
  type ID = uint32
  const NULL_ID: ID := 0

  /** FragmentType_t: a C `char`, so one byte. */
  type FragmentType = c: char | (c as int) < 256 witness '\0'

  const NULL_FRAGMENT: FragmentType := '\0'
  const OTHER: FragmentType := 'X'
  const INSERT: FragmentType := 'I'
  const TRANSPOSON: FragmentType := 'T'
  const BAC: FragmentType := 'B'

  /** The type constants are pairwise distinct. */
  lemma {:induction false} TypeConstantsDistinct()
    ensures |{NULL_FRAGMENT, OTHER, INSERT, TRANSPOSON, BAC}| == 5
  {
  }

  /** The members of a fragment as a value. */
  datatype FragmentRecord = FragmentRecord(ends: (ID, ID), library: ID, readIds: seq<ID>, fragType: FragmentType)

  /** What the constructor and clear leave behind. */
  const NULL_RECORD: FragmentRecord := FragmentRecord((NULL_ID, NULL_ID), NULL_ID, [], NULL_FRAGMENT)

  /** The bank code of the fragment account. */
  function BankCode(): (c: NCode)
    ensures c == BANK_FRAGMENT
  {
    BANK_FRAGMENT
  }

  //-- The model's biserial layout of a fragment

  /** Number of bytes of the fixed-length part: library, both ends, type. */
  const FIXED_SIZE: nat := 13

  /** The fixed-length stream: library, 5' end, 3' end, type byte. */
  function EncodeFixed(f: FragmentRecord): (b: seq<byte>)
    ensures |b| == FIXED_SIZE
  {
    EncodeUint32(f.library) + EncodeUint32(f.ends.0) + EncodeUint32(f.ends.1) + [f.fragType as int]
  }

  function EncodeIds(ids: seq<ID>): (b: seq<byte>)
    ensures |b| == 4 * |ids|
  {
    if ids == [] then [] else EncodeUint32(ids[0]) + EncodeIds(ids[1..])
  }

  /** The variable-length stream: the number of reads, then each read id. */
  function EncodeVar(f: FragmentRecord): (b: seq<byte>)
  {
    EncodeLength(|f.readIds|) + EncodeIds(f.readIds)
  }

  /** The n ids held in the first 4 * n bytes of b. */
  function DecodeIds(b: seq<byte>, n: nat): (ids: seq<ID>)
    requires |b| >= 4 * n
    ensures |ids| == n
  {
    if n == 0 then [] else [DecodeUint32(b)] + DecodeIds(b[4..], n - 1)
  }

  /** Reads one fragment from the heads of the two streams. The result holds
      the fragment and the record size (bytes taken from both streams); a
      stream that ends inside the record is a corrupt stream. */
  function Decode(fix: seq<byte>, vbytes: seq<byte>): (r: Result<(FragmentRecord, nat)>)
    ensures r.Ok? ==> FIXED_SIZE <= |fix| && r.value.1 <= FIXED_SIZE + |vbytes|
    ensures |fix| < FIXED_SIZE ==> r == Err(StreamCorruption)
  {
    if |fix| < FIXED_SIZE then Err(StreamCorruption)
    else match DecodeLength(vbytes)
      case None => Err(StreamCorruption)
      case Some((n, k)) =>
        if |vbytes| - k < 4 * n then Err(StreamCorruption)
        else
          var library := DecodeUint32(fix);
          var first := DecodeUint32(fix[4..]);
          var second := DecodeUint32(fix[8..]);
          var t := fix[12] as char;
          var ids := DecodeIds(vbytes[k..], n);
          Ok((FragmentRecord((first, second), library, ids, t), FIXED_SIZE + k + 4 * n))
  }

  lemma {:induction false} IdsRoundTrip(ids: seq<ID>, rest: seq<byte>)
    ensures |EncodeIds(ids) + rest| >= 4 * |ids|
    ensures DecodeIds(EncodeIds(ids) + rest, |ids|) == ids
  {
    if ids != [] {
      var b := EncodeIds(ids) + rest;
      assert b == EncodeUint32(ids[0]) + (EncodeIds(ids[1..]) + rest);
      Uint32RoundTrip(ids[0], EncodeIds(ids[1..]) + rest);
      assert b[4..] == EncodeIds(ids[1..]) + rest;
      IdsRoundTrip(ids[1..], rest);
    }
  }

  /** Reading a record that writeRecord produced restores every member and
      takes exactly the bytes that were written, whatever follows them. */
  lemma {:induction false} RecordRoundTrip(f: FragmentRecord, fixRest: seq<byte>, varRest: seq<byte>)
    ensures Decode(EncodeFixed(f) + fixRest, EncodeVar(f) + varRest)
         == Ok((f, |EncodeFixed(f)| + |EncodeVar(f)|))
  {
    FixedRoundTrip(f, fixRest);
    VarRoundTrip(f, varRest);
  }

  /** The fixed-length stream gives back the library, both ends and the type. */
  lemma {:induction false} FixedRoundTrip(f: FragmentRecord, fixRest: seq<byte>)
    ensures var fix := EncodeFixed(f) + fixRest;
            |fix| >= FIXED_SIZE && DecodeUint32(fix) == f.library
            && DecodeUint32(fix[4..]) == f.ends.0 && DecodeUint32(fix[8..]) == f.ends.1
            && fix[12] as char == f.fragType
  {
    var fix := EncodeFixed(f) + fixRest;
    Uint32RoundTrip(f.library, fix[4..]);
    assert fix[4..] == EncodeUint32(f.ends.0) + fix[8..];
    Uint32RoundTrip(f.ends.0, fix[8..]);
    assert fix[8..] == EncodeUint32(f.ends.1) + fix[12..];
    Uint32RoundTrip(f.ends.1, fix[12..]);
    assert fix[12] == f.fragType as int;
  }

  /** The variable-length stream gives back the read ids after their count. */
  lemma {:induction false} VarRoundTrip(f: FragmentRecord, varRest: seq<byte>)
    ensures var vb := EncodeVar(f) + varRest;
            var n, k := |f.readIds|, |EncodeLength(|f.readIds|)|;
            DecodeLength(vb) == Some((n, k)) && |vb| - k >= 4 * n
            && DecodeIds(vb[k..], n) == f.readIds && |EncodeVar(f)| == k + 4 * n
  {
    var vb := EncodeVar(f) + varRest;
    var n := |f.readIds|;
    var k := |EncodeLength(n)|;
    assert vb == EncodeLength(n) + (EncodeIds(f.readIds) + varRest);
    LengthRoundTrip(n, EncodeIds(f.readIds) + varRest);
    assert vb[k..] == EncodeIds(f.readIds) + varRest;
    IdsRoundTrip(f.readIds, varRest);
  }

  class Fragment {
    var ends: (ID, ID)
    var library: ID
    var readIds: seq<ID>
    var fragType: FragmentType

    function Record(): (f: FragmentRecord)
      reads this
      ensures f.ends == ends && f.library == library && f.readIds == readIds && f.fragType == fragType
    {
      FragmentRecord(ends, library, readIds, fragType)
    }

    /** Sets the ends and the library to NULL_ID and the type to NULL_FRAGMENT. */
    constructor ()
      ensures Record() == NULL_RECORD
    {
      ends := (NULL_ID, NULL_ID);
      library := NULL_ID;
      readIds := [];
      fragType := NULL_FRAGMENT;
    }

    /** Resets every member to null and empties the read list. */
    method Clear()
      modifies this
      ensures Record() == NULL_RECORD
    {
      ends := (NULL_ID, NULL_ID);
      library := NULL_ID;
      readIds := [];
      fragType := NULL_FRAGMENT;
    }

    /** The type code of a fragment is the fragment bank code. */
    method GetNCode() returns (c: NCode)
      ensures c == BankCode()
    {
      c := BankCode();
    }

    method GetEnds() returns (e: (ID, ID))
      ensures e == ends
    {
      e := ends;
    }

    method GetLibrary() returns (l: ID)
      ensures l == library
    {
      l := library;
    }

    method GetReads() returns (r: seq<ID>)
      ensures r == readIds
    {
      r := readIds;
    }

    method GetType() returns (t: FragmentType)
      ensures t == fragType
    {
      t := fragType;
    }

    method SetEnds(e: (ID, ID))
      modifies this
      ensures Record() == old(Record()).(ends := e)
    {
      ends := e;
    }

    method SetLibrary(l: ID)
      modifies this
      ensures Record() == old(Record()).(library := l)
    {
      library := l;
    }

    method SetReads(r: seq<ID>)
      modifies this
      ensures Record() == old(Record()).(readIds := r)
    {
      readIds := r;
    }

    method SetType(t: FragmentType)
      modifies this
      ensures Record() == old(Record()).(fragType := t)
    {
      fragType := t;
    }

    /** Writes the record to the streams that are ready and returns the size
        of the whole record in any case. */
    method WriteRecord(fixReady: bool, varReady: bool) returns (fix: seq<byte>, vbytes: seq<byte>, size: nat)
      ensures fix == if fixReady then EncodeFixed(Record()) else []
      ensures vbytes == if varReady then EncodeVar(Record()) else []
      ensures size == |EncodeFixed(Record())| + |EncodeVar(Record())|
    {
      var f := EncodeFixed(Record());
      var v := EncodeVar(Record());
      fix := if fixReady then f else [];
      vbytes := if varReady then v else [];
      size := |f| + |v|;
    }

    /** Reads every member from the heads of the two streams and returns the
        record size; a corrupt stream leaves the object unchanged. */
    method ReadRecord(fix: seq<byte>, vbytes: seq<byte>) returns (r: Result<nat>)
      modifies this
      ensures Decode(fix, vbytes).Ok? ==> r == Ok(Decode(fix, vbytes).value.1) && Record() == Decode(fix, vbytes).value.0
      ensures Decode(fix, vbytes).Err? ==> r.Err? && Record() == old(Record())
    {
      var d := Decode(fix, vbytes);
      if d.Err? {
        return Err(d.error);
      }
      var (f, size) := d.value;
      ends, library, readIds, fragType := f.ends, f.library, f.readIds, f.fragType;
      r := Ok(size);
    }
  }

  /** Writing one fragment and reading the record into another restores every
      member, and both sides report the same size. */
  method WriteThenRead(src: Fragment, dst: Fragment) returns (written: nat, read: Result<nat>)
    requires src != dst
    modifies dst
    ensures dst.Record() == src.Record()
    ensures read == Ok(written)
  {
    var fix, vb, size := src.WriteRecord(true, true);
    RecordRoundTrip(src.Record(), [], []);
    assert fix + [] == fix && vb + [] == vb;
    written := size;
    read := dst.ReadRecord(fix, vb);
  }

  /** Each setter round-trips through its getter. */
  method SetThenGet(frag: Fragment, e: (ID, ID), l: ID, r: seq<ID>, t: FragmentType)
    returns (e': (ID, ID), l': ID, r': seq<ID>, t': FragmentType)
    modifies frag
    ensures e' == e && l' == l && r' == r && t' == t
  {
    frag.SetEnds(e);
    frag.SetLibrary(l);
    frag.SetReads(r);
    frag.SetType(t);
    e' := frag.GetEnds();
    l' := frag.GetLibrary();
    r' := frag.GetReads();
    t' := frag.GetType();
  }
}
