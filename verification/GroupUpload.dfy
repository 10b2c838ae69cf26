/** The files of a group room on disk: uploads never overwrite, and a room stays within its quota. */
module GroupUpload {
  import opened Wrappers
  import opened GroupStorage

  /** A directory entry; the contents of a file are its bytes. */
  datatype Node = File(data: seq<bv8>) | Directory

  /** The entries of a room's folder under the upload root and under the old root. */
  datatype Disk = Disk(primary: map<string, Node>, legacy: map<string, Node>)

  function Files(folder: map<string, Node>): map<string, seq<bv8>> {
    map n | n in folder && folder[n].File? :: folder[n].data
  }

  /** `collect_room_files`: a file under the upload root hides one of its name under the old root. */
  function RoomFiles(d: Disk): map<string, seq<bv8>> {
    Files(d.legacy) + Files(d.primary)
  }

  // ---------------------------------------------------------------- usage

  ghost function TotalSize(files: map<string, seq<bv8>>): nat {
    if files == map[] then 0
    else
      var n :| n in files;
      |files[n]| + TotalSize(files - {n})
  }

  lemma {:induction false} TotalWithout(files: map<string, seq<bv8>>, n: string)
    requires n in files
    ensures TotalSize(files) == |files[n]| + TotalSize(files - {n})
  {
    var m :| m in files && TotalSize(files) == |files[m]| + TotalSize(files - {m});
    if m != n {
      TotalWithout(files - {m}, n);
      TotalWithout(files - {n}, m);
      assert files - {m} - {n} == files - {n} - {m};
    }
  }

  lemma TotalWith(files: map<string, seq<bv8>>, n: string, data: seq<bv8>)
    requires n !in files
    ensures TotalSize(files[n := data]) == TotalSize(files) + |data| && |files[n := data]| == |files| + 1
  {
    TotalWithout(files[n := data], n);
    assert files[n := data] - {n} == files;
  }

  // ---------------------------------------------------------------- uploads

  /** How the write of one upload goes: complete, or an error after some bytes or before the open. */
  datatype Write = Complete | Partial(bytes: nat) | NotOpened

  /** An uploaded file, whether its content is refused, and how its write goes. */
  datatype Upload = Upload(name: string, data: seq<bv8>, refused: bool, write: Write)

  datatype Outcome = Ignored | Rejected | Error | Saved(name: string)

  /** `secure_filename` and the clock, which sanitising depends on. */
  datatype Env = Env(secure: string -> string, now: nat)

  function TargetName(d: Disk, u: Upload, env: Env): string {
    UnusedName(RoomFiles(d).Keys, Sanitize(u.name, env.secure, env.now))
  }

  /** Opening for writing, which truncates, and copying the data. */
  function Put(d: Disk, name: string, data: seq<bv8>): Disk {
    d.(primary := d.primary[name := File(data)])
  }

  function Prefix(data: seq<bv8>, k: nat): seq<bv8> {
    if k < |data| then data[..k] else data
  }

  predicate IsDirectory(d: Disk, name: string) {
    name in d.primary && d.primary[name].Directory?
  }

  /** One turn of the loop in `_save_uploaded_files`; opening a directory for writing fails. */
  function SaveOne(d: Disk, u: Upload, env: Env): (Disk, Outcome) {
    if u.name == "" then (d, Ignored)
    else if u.refused then (d, Rejected)
    else
      var name := TargetName(d, u, env);
      if IsDirectory(d, name) || u.write.NotOpened? then (d, Error)
      else if u.write.Partial? then (Put(d, name, Prefix(u.data, u.write.bytes)), Error)
      else if u.data == [] then (d, Error)
      else (Put(d, name, u.data), Saved(name))
  }

  function SaveAll(d: Disk, us: seq<Upload>, env: Env): (Disk, seq<Outcome>) {
    if us == [] then (d, [])
    else
      var (d0, os) := SaveAll(d, us[..|us| - 1], env);
      var (d1, o) := SaveOne(d0, us[|us| - 1], env);
      (d1, os + [o])
  }

  /** `count_total_upload_size`. */
  function UploadSize(us: seq<Upload>): nat {
    if us == [] then 0
    else UploadSize(us[..|us| - 1]) + if us[|us| - 1].name == "" then 0 else |us[|us| - 1].data|
  }

  /** Every entry that was there is there unchanged. */
  predicate Extends(d: Disk, e: Disk) {
    && e.legacy == d.legacy
    && forall n | n in d.primary :: n in e.primary && e.primary[n] == d.primary[n]
  }

  lemma FileListed(d: Disk, n: string)
    requires n in d.primary && d.primary[n].File?
    ensures n in RoomFiles(d)
  {
  }

  lemma PutAdds(d: Disk, n: string, data: seq<bv8>)
    requires n !in RoomFiles(d) && !IsDirectory(d, n)
    ensures n !in d.primary && Extends(d, Put(d, n, data)) && RoomFiles(Put(d, n, data)) == RoomFiles(d)[n := data]
  {
    if n in d.primary { FileListed(d, n); }
  }

  /** Only files under names that neither root has in use were added. */
  ghost predicate Adds(d: Disk, e: Disk, n: string, data: seq<bv8>) {
    n !in d.primary && n !in RoomFiles(d) && e == Put(d, n, data) && RoomFiles(e) == RoomFiles(d)[n := data]
  }

  /** What one upload adds: nothing, or one file under its target name; and exactly when it counts as saved. */
  lemma SaveOneAdds(d: Disk, u: Upload, env: Env)
    ensures var (e, o) := SaveOne(d, u, env);
            && Extends(d, e)
            && (o.Saved? <==> u.name != "" && !u.refused && u.write.Complete? && u.data != []
                              && TargetName(d, u, env) !in d.primary)
            && (o.Ignored? <==> u.name == "") && (o.Rejected? <==> u.name != "" && u.refused)
            && (o.Saved? ==> o.name == TargetName(d, u, env) && Adds(d, e, o.name, u.data))
            && (e != d ==> u.name != "" && exists k :: Adds(d, e, TargetName(d, u, env), Prefix(u.data, k)))
  {
    var (e, o) := SaveOne(d, u, env);
    TargetIsFree(d, u, env);
    if e != d {
      var n := TargetName(d, u, env);
      if u.write.Partial? {
        PutAdds(d, n, Prefix(u.data, u.write.bytes));
        assert Adds(d, e, n, Prefix(u.data, u.write.bytes));
      } else {
        PutAdds(d, n, u.data);
        assert Adds(d, e, n, Prefix(u.data, |u.data|));
      }
    } else if o.Saved? {
      PutAdds(d, o.name, u.data);
    }
  }

  /** A write that breaks off leaves what had been written, under the target name, and counts as an error. */
  lemma PartialStays(d: Disk, u: Upload, env: Env)
    requires u.name != "" && !u.refused && u.write.Partial? && TargetName(d, u, env) !in d.primary
    ensures var (e, o) := SaveOne(d, u, env);
            var written := if u.write.bytes < |u.data| then u.data[..u.write.bytes] else u.data;
            o == Error && e == Disk(d.primary[TargetName(d, u, env) := File(written)], d.legacy)
  {
  }

  /** The target name is used by no file of the room, so what stands under it can only be a directory. */
  lemma TargetIsFree(d: Disk, u: Upload, env: Env)
    ensures TargetName(d, u, env) !in RoomFiles(d)
    ensures IsDirectory(d, TargetName(d, u, env)) <==> TargetName(d, u, env) in d.primary
  {
    var n := TargetName(d, u, env);
    if n in d.primary && d.primary[n].File? { FileListed(d, n); }
  }

  /** The saved names are new, pairwise different, and hold the bytes uploaded under them. */
  ghost predicate SavedWell(d: Disk, e: Disk, us: seq<Upload>, os: seq<Outcome>) {
    && |os| == |us|
    && (forall i | 0 <= i < |os| && os[i].Saved? ::
          && os[i].name !in d.primary && os[i].name !in RoomFiles(d)
          && os[i].name in e.primary && e.primary[os[i].name] == File(us[i].data))
    && (forall i, j | 0 <= i < j < |os| && os[i].Saved? && os[j].Saved? :: os[i].name != os[j].name)
  }

  lemma OneMoreSaved(d: Disk, e: Disk, f: Disk, us: seq<Upload>, os: seq<Outcome>, u: Upload, o: Outcome)
    requires Extends(d, e) && Extends(e, f) && SavedWell(d, e, us, os)
    requires o.Saved? ==> Adds(e, f, o.name, u.data)
    ensures SavedWell(d, f, us + [u], os + [o])
  {
    forall i | 0 <= i < |os| && os[i].Saved? && o.Saved? ensures os[i].name != o.name {
      assert os[i].name in e.primary;
    }
  }

  /** A batch of uploads leaves every existing entry of both roots as it was, and saves as promised. */
  lemma {:induction false} BatchNeverOverwrites(d: Disk, us: seq<Upload>, env: Env)
    ensures var (e, os) := SaveAll(d, us, env); Extends(d, e) && SavedWell(d, e, us, os)
  {
    if us != [] {
      var u := us[|us| - 1];
      BatchNeverOverwrites(d, us[..|us| - 1], env);
      var (e, os) := SaveAll(d, us[..|us| - 1], env);
      var (f, o) := SaveOne(e, u, env);
      SaveOneAdds(e, u, env);
      OneMoreSaved(d, e, f, us[..|us| - 1], os, u, o);
      assert us == us[..|us| - 1] + [u];
    }
  }

  // ---------------------------------------------------------------- the quota

  /** The room's quota: number of files and their total size, as `room_files_usage` counts them. */
  datatype Quota = Quota(files: nat, bytes: nat)

  ghost predicate Within(d: Disk, q: Quota) {
    |RoomFiles(d)| <= q.files && TotalSize(RoomFiles(d)) <= q.bytes
  }

  /** `validate_upload_limits` accepts the batch on top of what the room holds. */
  ghost predicate Accepts(d: Disk, us: seq<Upload>, q: Quota) {
    |RoomFiles(d)| + |us| <= q.files && TotalSize(RoomFiles(d)) + UploadSize(us) <= q.bytes
  }

  /** `group_upload`: a batch beyond the quota stores nothing. */
  ghost function UploadBatch(d: Disk, us: seq<Upload>, env: Env, q: Quota): Disk {
    if Accepts(d, us, q) then SaveAll(d, us, env).0 else d
  }

  lemma AddsUsage(d: Disk, e: Disk, n: string, data: seq<bv8>, k: nat)
    requires Adds(d, e, n, Prefix(data, k))
    ensures |RoomFiles(e)| == |RoomFiles(d)| + 1
    ensures TotalSize(RoomFiles(e)) <= TotalSize(RoomFiles(d)) + |data|
  {
    TotalWith(RoomFiles(d), n, Prefix(data, k));
  }

  lemma {:induction false} BatchUsage(d: Disk, us: seq<Upload>, env: Env)
    ensures var e := SaveAll(d, us, env).0;
            && |RoomFiles(e)| <= |RoomFiles(d)| + |us|
            && TotalSize(RoomFiles(e)) <= TotalSize(RoomFiles(d)) + UploadSize(us)
  {
    if us != [] {
      var u := us[|us| - 1];
      BatchUsage(d, us[..|us| - 1], env);
      var e := SaveAll(d, us[..|us| - 1], env).0;
      var f := SaveOne(e, u, env).0;
      SaveOneAdds(e, u, env);
      if f != e {
        var k :| Adds(e, f, TargetName(e, u, env), Prefix(u.data, k));
        AddsUsage(e, f, TargetName(e, u, env), u.data, k);
      }
    }
  }

  /** When every upload of a batch is saved the room grows by exactly so many files and their bytes. */
  lemma {:induction false} SavedBatchUsage(d: Disk, us: seq<Upload>, env: Env)
    requires var os := SaveAll(d, us, env).1; forall i: nat | i < |os| :: os[i].Saved?
    ensures var e := SaveAll(d, us, env).0;
            && |RoomFiles(e)| == |RoomFiles(d)| + |us|
            && TotalSize(RoomFiles(e)) == TotalSize(RoomFiles(d)) + UploadSize(us)
  {
    if us != [] {
      var front, u := us[..|us| - 1], us[|us| - 1];
      var (e, os) := SaveAll(d, front, env);
      var (f, o) := SaveOne(e, u, env);
      assert SaveAll(d, us, env) == (f, os + [o]);
      assert forall i: nat | i < |os| :: (os + [o])[i] == os[i];
      assert (os + [o])[|os|] == o;
      SavedBatchUsage(d, front, env);
      SaveOneAdds(e, u, env);
      TotalWith(RoomFiles(e), o.name, u.data);
    }
  }

  /** Uploads without a name weigh nothing, and the order of a batch does not matter to its weight. */
  lemma {:induction false} WeightOfTwo(us: seq<Upload>, more: seq<Upload>)
    ensures UploadSize(us + more) == UploadSize(us) + UploadSize(more)
    ensures (forall i: nat | i < |us| :: us[i].name == "") ==> UploadSize(us) == 0
    decreases |us| + |more|
  {
    if more != [] {
      var n := |more| - 1;
      assert (us + more)[..|us| + n] == us + more[..n] && (us + more)[|us| + n] == more[n];
      WeightOfTwo(us, more[..n]);
    } else {
      assert us + [] == us;
      if us != [] { WeightOfTwo(us[..|us| - 1], []); }
    }
  }

  /** A batch is stored exactly when the room, with so many files and bytes more, is within both limits. */
  lemma BatchStored(d: Disk, us: seq<Upload>, env: Env, files: nat, bytes: nat)
    ensures UploadBatch(d, us, env, Quota(files, bytes)) ==
            if |RoomFiles(d)| + |us| <= files && TotalSize(RoomFiles(d)) + UploadSize(us) <= bytes
            then SaveAll(d, us, env).0 else d
  {
  }

  /** `delete_file`: the file that `resolve_room_file` finds, the upload root first. */
  function Delete(d: Disk, name: string): Disk {
    if name in Files(d.primary) then d.(primary := d.primary - {name})
    else if name in Files(d.legacy) then d.(legacy := d.legacy - {name})
    else d
  }

  datatype Request = Batch(us: seq<Upload>, env: Env) | Remove(name: string)

  ghost function Handle(d: Disk, r: Request, q: Quota): Disk {
    match r case Batch(us, env) => UploadBatch(d, us, env, q) case Remove(name) => Delete(d, name)
  }

  ghost function HandleAll(d: Disk, rs: seq<Request>, q: Quota): Disk {
    if rs == [] then d else Handle(HandleAll(d, rs[..|rs| - 1], q), rs[|rs| - 1], q)
  }

  /** A file under both roots: removing the one that is served brings the other into the listing. */
  predicate InBoth(d: Disk, name: string) {
    name in Files(d.primary) && name in Files(d.legacy)
  }

  lemma DeleteLists(d: Disk, name: string)
    ensures RoomFiles(Delete(d, name)) ==
            if InBoth(d, name) then RoomFiles(d)[name := Files(d.legacy)[name]] else RoomFiles(d) - {name}
  {
    var e := Delete(d, name);
    if name in Files(d.primary) {
      assert Files(e.primary) == Files(d.primary) - {name} && e.legacy == d.legacy;
    } else if name in Files(d.legacy) {
      assert Files(e.legacy) == Files(d.legacy) - {name} && e.primary == d.primary;
    }
  }

  lemma UsageWithout(files: map<string, seq<bv8>>, name: string)
    ensures |files - {name}| <= |files| && TotalSize(files - {name}) <= TotalSize(files)
  {
    if name in files {
      TotalWithout(files, name);
      assert files.Keys == (files - {name}).Keys + {name};
    } else {
      assert files - {name} == files;
    }
  }

  lemma UsageReplaced(files: map<string, seq<bv8>>, name: string, data: seq<bv8>)
    requires name in files
    ensures |files[name := data]| == |files|
    ensures TotalSize(files[name := data]) == TotalSize(files) - |files[name]| + |data|
  {
    TotalWithout(files, name);
    TotalWithout(files[name := data], name);
    assert files[name := data] - {name} == files - {name};
    assert files[name := data].Keys == files.Keys;
  }

  /** A removal that brings back a file under the old root leaves room for it. */
  ghost predicate RemovalFits(d: Disk, name: string, q: Quota) {
    InBoth(d, name) ==>
      TotalSize(RoomFiles(d)) - |Files(d.primary)[name]| + |Files(d.legacy)[name]| <= q.bytes
  }

  /** A removal keeps a room within its quota exactly when it fits. */
  lemma RemovalWithinIff(d: Disk, name: string, q: Quota)
    requires Within(d, q)
    ensures Within(Delete(d, name), q) <==> RemovalFits(d, name, q)
  {
    DeleteLists(d, name);
    if InBoth(d, name) {
      UsageReplaced(RoomFiles(d), name, Files(d.legacy)[name]);
    } else {
      UsageWithout(RoomFiles(d), name);
    }
  }

  /** Within the quota before and after every request. */
  ghost predicate AlwaysWithin(d: Disk, rs: seq<Request>, q: Quota) {
    Within(HandleAll(d, rs, q), q) && (rs == [] || AlwaysWithin(d, rs[..|rs| - 1], q))
  }

  ghost predicate RemovalsFit(d: Disk, rs: seq<Request>, q: Quota) {
    rs != [] ==>
      && RemovalsFit(d, rs[..|rs| - 1], q)
      && (rs[|rs| - 1].Remove? ==> RemovalFits(HandleAll(d, rs[..|rs| - 1], q), rs[|rs| - 1].name, q))
  }

  /**
   From any room within its quota, a sequence of uploads and removals stays within it throughout exactly
   when every removal of it fits.
   */
  lemma {:induction false} RunStaysWithin(d: Disk, rs: seq<Request>, q: Quota)
    requires Within(d, q)
    ensures AlwaysWithin(d, rs, q) <==> RemovalsFit(d, rs, q)
  {
    if rs != [] {
      RunStaysWithin(d, rs[..|rs| - 1], q);
      var e := HandleAll(d, rs[..|rs| - 1], q);
      if Within(e, q) {
        match rs[|rs| - 1] {
          case Batch(us, env) => BatchUsage(e, us, env);
          case Remove(name) => RemovalWithinIff(e, name, q);
        }
      }
    } else {
      assert HandleAll(d, rs, q) == d;
    }
  }

  /** Uploads alone never leave the quota. */
  lemma {:induction false} BatchesStayWithin(d: Disk, rs: seq<Request>, q: Quota)
    requires Within(d, q) && forall i: nat | i < |rs| :: rs[i].Batch?
    ensures AlwaysWithin(d, rs, q)
  {
    if rs != [] {
      BatchesStayWithin(d, rs[..|rs| - 1], q);
      RunStaysWithin(d, rs[..|rs| - 1], q);
      RunStaysWithin(d, rs, q);
      assert rs[|rs| - 1].Batch?;
    }
  }

  // ---------------------------------------------------------------- rooms that every quota keeps

  /** Where a name is a file under both roots, the hidden one is not the larger. */
  ghost predicate NeverHeavier(d: Disk) {
    forall name | InBoth(d, name) :: |Files(d.legacy)[name]| <= |Files(d.primary)[name]|
  }

  lemma {:induction false} BatchStaysLight(d: Disk, us: seq<Upload>, env: Env)
    requires NeverHeavier(d)
    ensures NeverHeavier(SaveAll(d, us, env).0)
  {
    if us != [] {
      var u := us[|us| - 1];
      var e := SaveAll(d, us[..|us| - 1], env).0;
      var f := SaveOne(e, u, env).0;
      BatchStaysLight(d, us[..|us| - 1], env);
      SaveOneAdds(e, u, env);
      forall name | InBoth(f, name) ensures |Files(f.legacy)[name]| <= |Files(f.primary)[name]| {
        if f != e {
          var k :| Adds(e, f, TargetName(e, u, env), Prefix(u.data, k));
          assert name in RoomFiles(e);
          assert InBoth(e, name) && f.primary[name] == e.primary[name];
        }
      }
    }
  }

  lemma LightBatchFits(d: Disk, us: seq<Upload>, env: Env, q: Quota)
    requires NeverHeavier(d) && Within(d, q)
    ensures NeverHeavier(Handle(d, Batch(us, env), q)) && Within(Handle(d, Batch(us, env), q), q)
  {
    hide NeverHeavier, SaveAll;
    BatchUsage(d, us, env);
    BatchStaysLight(d, us, env);
  }

  lemma LightRemovalFits(d: Disk, name: string, q: Quota)
    requires NeverHeavier(d) && Within(d, q)
    ensures NeverHeavier(Delete(d, name)) && Within(Delete(d, name), q)
  {
    assert RemovalFits(d, name, q);
    DeleteStaysLight(d, name);
    hide Delete, NeverHeavier, RemovalFits, Within;
    RemovalWithinIff(d, name, q);
  }

  lemma DeleteStaysLight(d: Disk, name: string)
    requires NeverHeavier(d)
    ensures NeverHeavier(Delete(d, name))
  {
    var e := Delete(d, name);
    forall other | InBoth(e, other) ensures |Files(e.legacy)[other]| <= |Files(e.primary)[other]| {
      assert InBoth(d, other);
    }
  }

  lemma {:induction false} LightRunFits(d: Disk, rs: seq<Request>, q: Quota)
    requires NeverHeavier(d) && Within(d, q)
    ensures NeverHeavier(HandleAll(d, rs, q)) && AlwaysWithin(d, rs, q)
  {
    if rs != [] {
      var e := HandleAll(d, rs[..|rs| - 1], q);
      LightRunFits(d, rs[..|rs| - 1], q);
      match rs[|rs| - 1] {
        case Batch(us, env) => LightBatchFits(e, us, env, q);
        case Remove(name) => LightRemovalFits(e, name, q);
      }
    }
  }

  lemma OneRemoval(d: Disk, name: string, q: Quota)
    ensures HandleAll(d, [Remove(name)], q) == Delete(d, name)
  {
    assert [Remove(name)][..0] == [];
    assert HandleAll(d, [], q) == d;
  }

  /** Deleting the smaller file breaks the quota that the room just meets. */
  lemma HeavierBreaks(d: Disk, name: string)
    requires InBoth(d, name) && |Files(d.legacy)[name]| > |Files(d.primary)[name]|
    ensures var q := Quota(|RoomFiles(d)|, TotalSize(RoomFiles(d)));
            Within(d, q) && !AlwaysWithin(d, [Remove(name)], q)
  {
    var q := Quota(|RoomFiles(d)|, TotalSize(RoomFiles(d)));
    assert Within(d, q) && !RemovalFits(d, name, q);
    hide Within, RemovalFits, RoomFiles, TotalSize, Delete, HandleAll;
    OneRemoval(d, name, q);
    RemovalWithinIff(d, name, q);
  }

  /** Every run from the room stays within every quota that the room meets. */
  ghost predicate SafeForEveryQuota(d: Disk) {
    forall rs, q | Within(d, q) :: AlwaysWithin(d, rs, q)
  }

  /** That is so exactly when no file under the old root is larger than the one that hides it. */
  lemma SafeForEveryQuotaIff(d: Disk)
    ensures SafeForEveryQuota(d) <==> NeverHeavier(d)
  {
    if NeverHeavier(d) {
      forall rs, q | Within(d, q) ensures AlwaysWithin(d, rs, q) {
        LightRunFits(d, rs, q);
      }
    } else {
      var name :| InBoth(d, name) && |Files(d.legacy)[name]| > |Files(d.primary)[name]|;
      HeavierBreaks(d, name);
    }
  }

  /** A room whose only file hides a larger one leaves its quota when that file is deleted. */
  lemma RemovalExceeds()
    ensures var d := Disk(map["a" := File([0])], map["a" := File([0, 0])]);
            Within(d, Quota(1, 1)) && !Within(Delete(d, "a"), Quota(1, 1))
  {
    var d := Disk(map["a" := File([0])], map["a" := File([0, 0])]);
    assert Files(d.primary) == map["a" := [0]] && Files(d.legacy) == map["a" := [0, 0]];
    assert RoomFiles(d) == map["a" := [0]];
    TotalWithout(RoomFiles(d), "a");
    assert RoomFiles(d) - {"a"} == map[];
    RemovalWithinIff(d, "a", Quota(1, 1));
  }

  // ---------------------------------------------------------------- the folders

  /** A room's folders, changed in place. */
  class RoomFolders {
    var primary: map<string, Node>
    var legacy: map<string, Node>

    function State(): Disk
      reads this
    {
      Disk(primary, legacy)
    }

    constructor (d: Disk)
      ensures State() == d
    {
      primary, legacy := d.primary, d.legacy;
    }

    /** The files of one folder that are not listed yet. */
    static method AddFiles(files: map<string, seq<bv8>>, folder: map<string, Node>) returns (all: map<string, seq<bv8>>)
      ensures all == Files(folder) + files
    {
      all := files;
      var names := folder.Keys;
      while names != {}
        invariant names <= folder.Keys
        invariant all == (map n | n in Files(folder) && n !in names :: Files(folder)[n]) + files
        decreases names
      {
        var n :| n in names;
        if folder[n].File? && n !in all {
          all := all[n := folder[n].data];
        }
        names := names - {n};
      }
    }

    method CollectRoomFiles() returns (files: map<string, seq<bv8>>)
      ensures files == RoomFiles(State())
    {
      files := AddFiles(map[], primary);
      files := AddFiles(files, legacy);
    }

    method RoomFilesUsage() returns (count: nat, size: nat)
      ensures count == |RoomFiles(State())| && size == TotalSize(RoomFiles(State()))
    {
      var files := CollectRoomFiles();
      count, size := |files|, 0;
      var rest := files;
      while rest != map[]
        invariant size + TotalSize(rest) == TotalSize(files)
        decreases |rest|
      {
        var n :| n in rest;
        TotalWithout(rest, n);
        size := size + |rest[n]|;
        assert rest.Keys == (rest - {n}).Keys + {n};
        rest := rest - {n};
      }
    }

    static method CountTotalUploadSize(us: seq<Upload>) returns (total: nat)
      ensures total == UploadSize(us)
    {
      total := 0;
      for i := 0 to |us|
        invariant total == UploadSize(us[..i])
      {
        assert us[..i + 1][..i] == us[..i];
        if us[i].name != "" {
          total := total + |us[i].data|;
        }
      }
      assert us[..|us|] == us;
    }

    method SaveUploadedFile(u: Upload, env: Env) returns (o: Outcome)
      modifies this
      ensures (State(), o) == SaveOne(old(State()), u, env)
    {
      if u.name == "" {
        return Ignored;
      }
      if u.refused {
        return Rejected;
      }
      var files := CollectRoomFiles();
      var name := UniqueRoomFilename(files.Keys, Sanitize(u.name, env.secure, env.now));
      if IsDirectory(State(), name) || u.write.NotOpened? {
        return Error;
      }
      ghost var before := primary;
      assert name !in before by {
        if name in before { FileListed(State(), name); }
      }
      if u.write.Partial? {
        primary := primary[name := File(Prefix(u.data, u.write.bytes))];
        return Error;
      }
      primary := primary[name := File(u.data)];
      if u.data == [] {
        primary := primary - {name};
        assert primary == before;
        return Error;
      }
      return Saved(name);
    }

    method SaveUploadedFiles(us: seq<Upload>, env: Env) returns (os: seq<Outcome>)
      modifies this
      ensures (State(), os) == SaveAll(old(State()), us, env)
    {
      os := [];
      for i := 0 to |us|
        invariant (State(), os) == SaveAll(old(State()), us[..i], env)
      {
        assert us[..i + 1][..i] == us[..i];
        var o := SaveUploadedFile(us[i], env);
        os := os + [o];
      }
      assert us[..|us|] == us;
    }

    method GroupUpload(us: seq<Upload>, env: Env, q: Quota) returns (os: Option<seq<Outcome>>)
      modifies this
      ensures State() == UploadBatch(old(State()), us, env, q)
      ensures os.Some? <==> Accepts(old(State()), us, q)
      ensures os.Some? ==> os.value == SaveAll(old(State()), us, env).1
    {
      var count, size := RoomFilesUsage();
      if count + |us| > q.files {
        return None;
      }
      var added := CountTotalUploadSize(us);
      if size + added > q.bytes {
        return None;
      }
      var outcomes := SaveUploadedFiles(us, env);
      return Some(outcomes);
    }

    method DeleteFile(name: string)
      modifies this
      ensures State() == Delete(old(State()), name)
    {
      if name in primary && primary[name].File? {
        primary := primary - {name};
      } else if name in legacy && legacy[name].File? {
        legacy := legacy - {name};
      }
    }
  }
}
