// The older device naming of loader/src/disk.rs, whose records also carry
// the slice number. Its `name_device` is the same loop as the driver's
// (LoaderDisk.NameDevice); its `name_slice` differs.

module LoaderNames {
  import opened Common
  import opened BlockIo
  import LoaderDisk

  /** `EFIBlockDevice` of loader/src/disk.rs; `EFIBlockDevice::new` is this
    * constructor. */
  datatype ProbedDevice = ProbedDevice(name: string, handle: Handle, isSlice: bool, sliceNumber: u16)

  /** The same records without their slice numbers. */
  function Core(devs: seq<ProbedDevice>): (r: seq<LoaderDisk.EFIBlockDevice>)
    ensures |r| == |devs|
    ensures forall i :: 0 <= i < |devs| ==>
      r[i] == LoaderDisk.EFIBlockDevice(devs[i].name, devs[i].handle, devs[i].isSlice)
  {
    seq(|devs|, i requires 0 <= i < |devs| => LoaderDisk.EFIBlockDevice(devs[i].name, devs[i].handle, devs[i].isSlice))
  }

  /** What this `name_slice` returns: only the LAST device's name is
    * compared (`available` is reset for every device), so the number is 1,
    * or 2 when the last device is "{disk}s1". */
  function NameSliceAsWritten(devs: seq<ProbedDevice>): (r: (string, u16))
    ensures var stem := LoaderDisk.Prefix(Core(devs)) + "s";
      (r.1 == 1 || r.1 == 2) && r.0 == stem + Decimal(r.1 as nat)
    ensures r.1 == 2 <==> devs != [] && devs[|devs| - 1].name == LoaderDisk.Prefix(Core(devs)) + "s1"
  {
    var stem := LoaderDisk.Prefix(Core(devs)) + "s";
    assert Decimal(1) == "1" && Decimal(2) == "2";
    if devs != [] && devs[|devs| - 1].name == stem + "1" then (stem + "2", 2) else (stem + "1", 1)
  }

  method NameSlice(devs: seq<ProbedDevice>) returns (name: string, sliceNum: u16)
    ensures (name, sliceNum) == NameSliceAsWritten(devs)
  {
    var available := true;
    sliceNum := 1;
    var disk := LoaderDisk.DiskPrefix(Core(devs));
    assert Decimal(1) == "1" && Decimal(2) == "2";
    assert (disk + "s") + "1" != (disk + "s") + "2" by {
      assert ((disk + "s") + "1")[|disk| + 1] == '1';
    }
    while true
      invariant sliceNum == 1 || sliceNum == 2
      invariant sliceNum == 2 ==> devs != [] && devs[|devs| - 1].name == disk + "s1"
      invariant devs == [] ==> available
      decreases 2 - sliceNum
    {
      name := disk + "s" + Decimal(sliceNum as nat);
      for i := 0 to |devs|
        invariant i > 0 ==> (available <==> devs[i - 1].name != name)
        invariant devs == [] ==> available
      {
        available := true;
        if devs[i].name == name {
          available := false;
        }
      }
      if available {
        return;
      }
      if sliceNum == 2 {
        assert false;
      }
      sliceNum := sliceNum + 1;
    }
  }

  /** As written, `name_slice` can repeat a name: after disk0, disk0s1 and
    * disk0s2 it offers disk0s1 again. */
  lemma NameSliceDuplicates()
    ensures var devs := [ProbedDevice("disk0", 1, false, 0), ProbedDevice("disk0s1", 1, true, 1),
                         ProbedDevice("disk0s2", 1, true, 2)];
      NameSliceAsWritten(devs) == ("disk0s1", 1) && devs[1].name == "disk0s1"
  {
    var devs := [ProbedDevice("disk0", 1, false, 0), ProbedDevice("disk0s1", 1, true, 1),
                 ProbedDevice("disk0s2", 1, true, 2)];
    var c := Core(devs);
    assert c[..2][..1] == c[..1];
    assert LoaderDisk.LastDisk(c[..1]) == Some(0);
    assert LoaderDisk.LastDisk(c[..2]) == Some(0);
    assert LoaderDisk.LastDisk(c) == Some(0);
    assert LoaderDisk.Prefix(c) == "disk0";
    assert Decimal(1) == "1";
    assert "disk0" + "s" + "1" == "disk0s1";
    assert devs[2].name != "disk0s1" by {
      assert devs[2].name[6] != "disk0s1"[6];
    }
  }
}
