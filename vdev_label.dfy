/**
 * The vdev label layout (chapter 1 of the ZFS On-Disk Specification):
 * four 256 KiB copies of the label, two at the front of the device and
 * two at its end, with the nvlist 16 KiB into each; and `read_nvlist`,
 * which seeks to a label's nvlist and decodes its stream header.
 */
module VdevLabel {
  import opened Types
  import Cursor
  import BinaryReader
  import ZfsNvlist

  const LABEL_SIZE: nat := 256 * 1024
  const LABEL_NVLIST_OFFSET: nat := 16 * 1024

  datatype LabelNumber = L0 | L1 | L2 | L3

  /**
   * `offset`: L0 and L1 start at 0 and at `LABEL_SIZE`; L2 and L3 start
   * `2 * LABEL_SIZE` and `LABEL_SIZE` before the end of the device. The
   * `u64` subtraction for L2 and L3 on a device smaller than two labels
   * overflows, which panics.
   */
  function Offset(size: u64, number: LabelNumber): (r: Result<u64, Error>)
    ensures r.Err? <==> number in {L2, L3} && size < 2 * LABEL_SIZE
    ensures r.Err? ==> r.error == Panic(ArithmeticOverflow)
    ensures r.Ok? && number in {L0, L1} ==> r.value + LABEL_SIZE <= 2 * LABEL_SIZE
    ensures r.Ok? && number in {L2, L3} ==> size - 2 * LABEL_SIZE <= r.value && r.value + LABEL_SIZE <= size
  {
    var base: Result<int, Error> :=
      match number
      case L0 | L1 => Ok(0)
      case L2 | L3 => if size < LABEL_SIZE * 2 then Err(Panic(ArithmeticOverflow)) else Ok(size - LABEL_SIZE * 2);
    var index :=
      match number
      case L0 | L2 => 0
      case L1 | L3 => 1;
    if base.Err? then Err(base.error) else Ok(base.value + index * LABEL_SIZE)
  }

  /** The byte range `[offset, offset + LABEL_SIZE)` of a label lies inside a device of at least two labels. */
  lemma LabelsInside(size: u64, number: LabelNumber)
    requires size >= 2 * LABEL_SIZE
    ensures Offset(size, number).Ok? && Offset(size, number).value + LABEL_SIZE <= size
  {
  }

  /** Each pair is contiguous: the second copy starts one label after the first, and the back pair ends the device. */
  lemma PairSpacing(size: u64)
    requires size >= 2 * LABEL_SIZE
    ensures Offset(size, L0) == Ok(0) && Offset(size, L1) == Ok(LABEL_SIZE)
    ensures Offset(size, L3).value == Offset(size, L2).value + LABEL_SIZE
    ensures Offset(size, L3).value + LABEL_SIZE == size
  {
  }

  /** Two label regions share no byte. */
  predicate Disjoint(a: nat, b: nat)
  {
    a + LABEL_SIZE <= b || b + LABEL_SIZE <= a
  }

  /** The four labels are pairwise disjoint exactly when the device holds at least four labels. */
  lemma AllDisjoint(size: u64)
    requires size >= 2 * LABEL_SIZE
    ensures (forall a: LabelNumber, b: LabelNumber :: a != b ==> Disjoint(Offset(size, a).value, Offset(size, b).value))
            <==> size >= 4 * LABEL_SIZE
  {
    if size == 2 * LABEL_SIZE {
      assert !Disjoint(Offset(size, L0).value, Offset(size, L2).value);
    } else if size < 4 * LABEL_SIZE {
      assert !Disjoint(Offset(size, L1).value, Offset(size, L2).value);
    }
  }

  /** The label's nvlist, and its 12-byte stream header, sit inside the label. */
  lemma NvlistInsideLabel(size: u64, number: LabelNumber)
    requires Offset(size, number).Ok?
    ensures Offset(size, number).value + LABEL_NVLIST_OFFSET + ZfsNvlist.LIST_SIZE <= Offset(size, number).value + LABEL_SIZE
  {
  }

  /** `seek(Start(target))` on a fresh reader, then `List::read`. */
  function NvlistAt(contents: seq<u8>, target: nat): Result<ZfsNvlist.List, Error>
  {
    var s := Cursor.Seek(contents, 0, Cursor.Start(target));
    if s.result.Err? then Err(s.result.error) else ZfsNvlist.ListStep(contents, s.pos).result
  }

  /**
   * `read_nvlist`: the device size (an error from it is returned), the
   * offset of the label, a seek to its nvlist, and the stream header read
   * there. The device is given by its contents and by what its `size`
   * reports.
   */
  method ReadNvlist(contents: seq<u8>, size: Result<u64, Error>, number: LabelNumber) returns (res: Result<ZfsNvlist.List, Error>)
    requires |contents| <= I64_MAX
    ensures size.Err? ==> res == Err(size.error)
    ensures size.Ok? && Offset(size.value, number).Err? ==> res == Err(Offset(size.value, number).error)
    ensures size.Ok? && Offset(size.value, number).Ok? ==>
              res == NvlistAt(contents, Offset(size.value, number).value + LABEL_NVLIST_OFFSET)
  {
    var r := new BinaryReader.Reader(contents);
    if size.Err? {
      return Err(size.error);
    }
    var offset := Offset(size.value, number);
    if offset.Err? {
      return Err(offset.error);
    }
    var target := offset.value + LABEL_NVLIST_OFFSET;
    ghost var s := Cursor.Seek(contents, 0, Cursor.Start(target));
    var seeked := r.Seek(Cursor.Start(target));
    assert Cursor.Step(seeked, r.pos) == s;
    if seeked.Err? {
      return Err(seeked.error);
    }
    assert r.data == contents && r.pos == s.pos;
    res := ZfsNvlist.ReadList(r);
  }

  /**
   * On a device whose reported size is its length and holds at least two
   * labels, the seek always succeeds, and reading label `number` decodes
   * the 12 bytes at 16 KiB into that label.
   */
  lemma ReadNvlistAt(contents: seq<u8>, number: LabelNumber)
    requires 2 * LABEL_SIZE <= |contents| <= I64_MAX
    ensures var target := Offset(|contents|, number).value + LABEL_NVLIST_OFFSET;
            target + ZfsNvlist.LIST_SIZE <= |contents|
            && NvlistAt(contents, target) == ZfsNvlist.ListStep(contents, target).result
  {
    LabelsInside(|contents|, number);
    NvlistInsideLabel(|contents|, number);
    var target := Offset(|contents|, number).value + LABEL_NVLIST_OFFSET;
    assert Cursor.Seek(contents, 0, Cursor.Start(target)) == Cursor.Step(Ok(target), target);
  }
}
