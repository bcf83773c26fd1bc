/** Device discovery: which entries of the 1-Wire mount point become devices. */
module Discovery {
  import opened Results
  import opened Fs
  import opened Paths

  /** Name prefix of the DS18B20 temperature-sensor family. */
  const FamilyPrefix: string := "28."

  /** Go's `strings.HasPrefix`. */
  predicate HasPrefix(s: string, prefix: string)
  {
    |prefix| <= |s| && s[..|prefix|] == prefix
  }

  /** An entry is taken as a device when it is a directory of the temperature
      family whose temperature file is not reported as missing.  A stat that
      fails for any other reason does not exclude it. */
  predicate Eligible(fs: FileSystem, f: FileInfo): (b: bool)
    ensures !f.isDir ==> !b
    ensures !HasPrefix(f.name, FamilyPrefix) ==> !b
    ensures fs.stat(TemperatureFilePath(f.name)) == StatNotExist ==> !b
    ensures f.isDir && HasPrefix(f.name, FamilyPrefix) && fs.stat(TemperatureFilePath(f.name)).StatFailed? ==> b
    ensures f.isDir && HasPrefix(f.name, FamilyPrefix) && fs.stat(TemperatureFilePath(f.name)) == StatFound ==> b
  {
    && f.isDir
    && HasPrefix(f.name, FamilyPrefix)
    && !fs.stat(TemperatureFilePath(f.name)).StatNotExist?
  }

  /** The names of the eligible entries of a listing, in listing order. */
  function KeptNames(fs: FileSystem, files: seq<FileInfo>): (names: seq<string>)
    ensures |names| <= |files|
    ensures forall k :: 0 <= k < |names| ==> HasPrefix(names[k], FamilyPrefix)
    ensures forall k :: 0 <= k < |names| ==> !fs.stat(TemperatureFilePath(names[k])).StatNotExist?
  {
    if |files| == 0 then []
    else
      var kept := KeptNames(fs, files[..|files| - 1]);
      var f := files[|files| - 1];
      if Eligible(fs, f) then kept + [f.name] else kept
  }

  ghost predicate StrictlyIncreasing(idx: seq<int>)
  {
    forall a, b :: 0 <= a < b < |idx| ==> idx[a] < idx[b]
  }

  /** `names` lists, in order, the names of exactly those positions of `files`
      that are eligible; `idx` gives the position each name came from. */
  ghost predicate IsOrderedSelection(fs: FileSystem, files: seq<FileInfo>, names: seq<string>, idx: seq<int>)
  {
    && |idx| == |names|
    && StrictlyIncreasing(idx)
    && (forall k :: 0 <= k < |idx| ==> 0 <= idx[k] < |files| && names[k] == files[idx[k]].name)
    && (forall i :: 0 <= i < |files| ==> (Eligible(fs, files[i]) <==> i in idx))
  }

  /** Discovery keeps the eligible entries, all of them, and in listing order. */
  lemma {:induction false} KeptNamesIsOrderedSelection(fs: FileSystem, files: seq<FileInfo>)
    returns (idx: seq<int>)
    ensures IsOrderedSelection(fs, files, KeptNames(fs, files), idx)
    ensures forall k :: 0 <= k < |idx| ==> Eligible(fs, files[idx[k]])
  {
    if |files| == 0 {
      idx := [];
    } else {
      var n := |files| - 1;
      var init := files[..n];
      var idx0 := KeptNamesIsOrderedSelection(fs, init);
      assert forall k :: 0 <= k < |idx0| ==> idx0[k] < n;
      assert forall i :: 0 <= i < n ==> init[i] == files[i];
      if Eligible(fs, files[n]) {
        idx := idx0 + [n];
      } else {
        idx := idx0;
      }
      forall i | 0 <= i < |files|
        ensures Eligible(fs, files[i]) <==> i in idx
      {
        if i < n {
          assert Eligible(fs, init[i]) <==> i in idx0;
        }
      }
    }
  }

  /** The last element of a strictly increasing sequence is its maximum, and
      dropping it removes exactly that one member. */
  lemma IncreasingDropLast(a: seq<int>)
    requires StrictlyIncreasing(a) && |a| != 0
    ensures StrictlyIncreasing(a[..|a| - 1])
    ensures forall x :: x in a ==> x <= a[|a| - 1]
    ensures forall x :: x in a[..|a| - 1] <==> x in a && x != a[|a| - 1]
  {
  }

  /** Two strictly increasing index sequences with the same members are equal. */
  lemma {:induction false} IncreasingWithSameMembersEqual(a: seq<int>, b: seq<int>)
    requires StrictlyIncreasing(a) && StrictlyIncreasing(b)
    requires forall x :: x in a <==> x in b
    ensures a == b
    decreases |a| + |b|
  {
    if |a| != 0 {
      assert a[0] in a;
    }
    if |b| != 0 {
      assert b[0] in b;
    }
    if |a| != 0 && |b| != 0 {
      var la, lb := a[|a| - 1], b[|b| - 1];
      IncreasingDropLast(a);
      IncreasingDropLast(b);
      assert la in a && lb in b;
      assert la == lb;
      var a', b' := a[..|a| - 1], b[..|b| - 1];
      forall x
        ensures x in a' <==> x in b'
      {
        assert x in a' <==> x in a && x != la;
        assert x in b' <==> x in b && x != lb;
      }
      IncreasingWithSameMembersEqual(a', b');
      assert a == a' + [la] && b == b' + [lb];
    }
  }

  /** The ordered-selection property pins the result down completely: the
      listing and the filesystem determine the device names and their order. */
  lemma OrderedSelectionIsUnique(
    fs: FileSystem, files: seq<FileInfo>,
    names1: seq<string>, idx1: seq<int>, names2: seq<string>, idx2: seq<int>)
    requires IsOrderedSelection(fs, files, names1, idx1)
    requires IsOrderedSelection(fs, files, names2, idx2)
    ensures names1 == names2
  {
    forall x
      ensures x in idx1 <==> x in idx2
    {
      if x in idx1 {
        var k :| 0 <= k < |idx1| && idx1[k] == x;
        assert Eligible(fs, files[x]);
      }
      if x in idx2 {
        var k :| 0 <= k < |idx2| && idx2[k] == x;
        assert Eligible(fs, files[x]);
      }
    }
    IncreasingWithSameMembersEqual(idx1, idx2);
  }

  /** A name is discovered exactly when some listed entry with that name is a
      directory, carries the family prefix, and its temperature file is not
      reported missing. */
  lemma KeptNamesMembership(fs: FileSystem, files: seq<FileInfo>, x: string)
    ensures x in KeptNames(fs, files) <==>
      exists i :: 0 <= i < |files| && files[i].name == x
        && files[i].isDir
        && HasPrefix(x, FamilyPrefix)
        && !fs.stat(TemperatureFilePath(x)).StatNotExist?
  {
    var names := KeptNames(fs, files);
    var idx := KeptNamesIsOrderedSelection(fs, files);
    if x in names {
      var k :| 0 <= k < |names| && names[k] == x;
      assert files[idx[k]].name == x && Eligible(fs, files[idx[k]]);
    }
    if exists i :: 0 <= i < |files| && files[i].name == x && Eligible(fs, files[i]) {
      var i :| 0 <= i < |files| && files[i].name == x && Eligible(fs, files[i]);
      assert i in idx;
      var k :| 0 <= k < |idx| && idx[k] == i;
      assert names[k] == x;
    }
  }

  /** A listing never names an entry twice, and then neither does discovery:
      the discovered device identifiers are pairwise distinct. */
  lemma KeptNamesDistinct(fs: FileSystem, files: seq<FileInfo>)
    requires forall i, j :: 0 <= i < j < |files| ==> files[i].name != files[j].name
    ensures forall a, b :: 0 <= a < b < |KeptNames(fs, files)| ==> KeptNames(fs, files)[a] != KeptNames(fs, files)[b]
  {
    var idx := KeptNamesIsOrderedSelection(fs, files);
  }

  /** `createOnewireDeviceList`: list the mount point and append the name of
      every eligible entry, in listing order, to the device list `prior`.  When
      the listing fails the error is returned and the list is left as it was. */
  method CreateOnewireDeviceList(fs: FileSystem, prior: seq<string>)
    returns (err: Option<IoError>, devices: seq<string>)
    ensures fs.readDir(OnewireDevicePath).Failure? ==>
      err == Some(fs.readDir(OnewireDevicePath).error) && devices == prior
    ensures fs.readDir(OnewireDevicePath).Success? ==>
      err == None && devices == prior + KeptNames(fs, fs.readDir(OnewireDevicePath).value)
  {
    var listing := fs.readDir(OnewireDevicePath);
    if listing.Failure? {
      return Some(listing.error), prior;
    }
    var files := listing.value;
    devices := prior;
    for i := 0 to |files|
      invariant devices == prior + KeptNames(fs, files[..i])
    {
      assert files[..i + 1][..i] == files[..i];
      var f := files[i];
      if !f.isDir || !HasPrefix(f.name, FamilyPrefix) {
        continue;
      }
      var p := TemperatureFilePath(f.name);
      if fs.stat(p).StatNotExist? {
        continue;
      }
      devices := devices + [f.name];
    }
    assert files[..|files|] == files;
    err := None;
  }
}
