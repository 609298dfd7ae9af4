/**
 * The block-device helpers of the first generation of the crate. They
 * split the device number and classify file types exactly as `UnixDevice`
 * does; the sysfs path of the size attribute is built in one piece.
 */
module LegacyUnix {
  import opened Types
  import opened UnixDevice

  /** `BlockDevice::path`: `/sys/dev/block/<major>:<minor>/size`. */
  function Path(rdev: u64): (p: string)
    ensures p == SizePath(New(rdev))
  {
    var n := New(rdev);
    "/sys/dev/block/" + Dec(n.major) + ":" + Dec(n.minor) + "/size"
  }

  /** `BlockDevice::size`: the block count in the device's size file, in bytes. */
  function Size(sysfs: map<string, string>, rdev: u64): (r: Result<u64, Error>)
    ensures r == UnixDevice.Size(sysfs, rdev)
  {
    SizeAt(sysfs, Path(rdev))
  }

  /** Distinct devices read distinct files. */
  lemma PathInjective(a: u64, b: u64)
    requires Path(a) == Path(b)
    ensures New(a) == New(b)
  {
    SizePathInjective(New(a), New(b));
  }

  /**
   * A disk 8:0 of 2048 blocks: this generation reports 1 MiB, the newer
   * `BlockDevice::size` looks for a file that is not there.
   */
  lemma SizeExample()
    ensures var sysfs := map["/sys/dev/block/8:0/size" := "2048\n"];
            Size(sysfs, 0x800) == Ok(1048576)
            && SizeAsWritten(sysfs, 0x800) == Err(FileMissing)
  {
    var sysfs := map["/sys/dev/block/8:0/size" := "2048\n"];
    ExamplePath();
    ExampleCount();
    SizeOfLine(sysfs, Path(0x800), 2048);
    assert "/sys/dev/block/size" !in sysfs;
  }

  lemma ExamplePath()
    ensures Path(0x800) == "/sys/dev/block/8:0/size"
  {
    assert New(0x800) == DeviceNumber(8, 0);
    assert Dec(8) == "8" && Dec(0) == "0";
  }

  lemma ExampleCount()
    ensures Dec(2048) + "\n" == "2048\n"
  {
    assert Dec(2048) == "2048";
  }
}
