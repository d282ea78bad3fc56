/** The application upgrade: backup, replacement and rollback as effects on files, any of
    which may fail and leave anything in the file it was writing. */
module AppUpgrade {
  import opened Options

  /** A file in the application directory, in the library backup directory, or in the
      unpacked package. */
  datatype Path = App(name: string) | Backup(name: string) | New(name: string)

  type Files = map<Path, string>

  const BIN := "wtsl_app"
  const BIN_BACKUP := "wtsl_app.backup"
  const CJSON := "libcjson.so"
  const CORE := "libwtsl_core.so"
  const MICROHTTPD := "libmicrohttpd.so"

  /** What the shell pattern `*.so` matches. */
  predicate IsSo(name: string) {
    |name| > 3 && name[|name| - 3..] == ".so" && name[0] != '.'
  }

  /** The names that end in ".so" and do not begin with a dot. */
  lemma {:induction false} IsSoIs(name: string)
    ensures IsSo(name) <==> exists m: string :: m != [] && m[0] != '.' && name == m + ".so"
  {
    if IsSo(name) {
      var m := name[..|name| - 3];
      assert name == m + ".so";
    }
  }

  /** The three libraries of a package are such. */
  lemma {:induction false} PackageLibrariesAreSo()
    ensures IsSo(CJSON) && IsSo(CORE) && IsSo(MICROHTTPD) && !IsSo(BIN) && !IsSo(BIN_BACKUP)
  {
  }

  /** Which commands succeed. A copy whose source is missing fails regardless. */
  datatype Outcomes = Outcomes(backupBin: bool, backupLibs: bool, replaceBin: bool, cjson: bool, core: bool,
                               microhttpd: bool, starts: bool, cleanup: bool, restoreBin: bool, restoreLibs: bool)

  /** What failing copies leave in their destinations: some contents, or no file. */
  datatype Garbage = Garbage(backupBin: Option<string>, backupLibs: map<string, string>,
                             replaceBin: Option<string>, cjson: Option<string>, core: Option<string>,
                             microhttpd: Option<string>, uncleaned: set<string>,
                             restoreBin: Option<string>, restoreLibs: map<string, string>)

  // ---- commands as effects on the files ----

  function Put(files: Files, dst: Path, c: Option<string>): Files {
    if c.Some? then files[dst := c.value] else files - {dst}
  }

  /** `cp src dst`. */
  function Copy(files: Files, src: Path, dst: Path, ok: bool, left: Option<string>): (bool, Files) {
    if src !in files then (false, files)
    else if ok then (true, files[dst := files[src]])
    else (false, Put(files, dst, left))
  }

  function Libs(files: Files): set<string> {
    set p | p in files && p.App? && IsSo(p.name) :: p.name
  }

  function BackedUp(files: Files): set<string> {
    set p | p in files && p.Backup? :: p.name
  }

  /** `mkdir -p lib.backup && cp -r *.so lib.backup`. */
  function BackupLibs(files: Files, ok: bool, left: map<string, string>): Files {
    var names := Libs(files);
    if ok then files + map n | n in names :: Backup(n) := files[App(n)]
    else (files - set n | n in names :: Backup(n)) + map n | n in names && n in left :: Backup(n) := left[n]
  }

  /** Copies everything in the backup directory back. */
  function RestoreLibs(files: Files, ok: bool, left: map<string, string>): Files {
    var names := BackedUp(files);
    if ok then files + map n | n in names :: App(n) := files[Backup(n)]
    else (files - set n | n in names :: App(n)) + map n | n in names && n in left :: App(n) := left[n]
  }

  /** `rm -rf` of the unpacked package. */
  function RemovePackage(files: Files, ok: bool, left: set<string>): Files {
    map p | p in files && (p.New? ==> !ok && p.name in left) :: files[p]
  }

  // ---- the upgrade ----

  /** Replaces one library if the package has libraries and nothing failed before. */
  function ReplaceLib(files: Files, going: bool, name: string, ok: bool, left: Option<string>): (bool, Files) {
    if going then Copy(files, New(name), App(name), ok, left) else (false, files)
  }

  /** The replacements: whether all went well, and the files. All three libraries are replaced
      if the package has the core library and none otherwise. */
  function Replace(files: Files, o: Outcomes, g: Garbage): (bool, Files) {
    var (b, f0) := Copy(files, New(BIN), App(BIN), o.replaceBin, g.replaceBin);
    if New(CORE) !in files then (b, f0)
    else
      var (c, f1) := ReplaceLib(f0, b, CJSON, o.cjson, g.cjson);
      var (w, f2) := ReplaceLib(f1, c, CORE, o.core, g.core);
      ReplaceLib(f2, w, MICROHTTPD, o.microhttpd, g.microhttpd)
  }

  function Secure(files: Files, o: Outcomes, g: Garbage): Files {
    BackupLibs(Copy(files, App(BIN), App(BIN_BACKUP), o.backupBin, g.backupBin).1, o.backupLibs, g.backupLibs)
  }

  function Rollback(files: Files, o: Outcomes, g: Garbage): Files {
    RestoreLibs(Copy(files, App(BIN_BACKUP), App(BIN), o.restoreBin, g.restoreBin).1, o.restoreLibs, g.restoreLibs)
  }

  /** What `perform_app_upgrade` returns and leaves. */
  function Upgrade(files: Files, o: Outcomes, g: Garbage): (int, Files) {
    if New(BIN) !in files then (-1, files)
    else
      var (replaced, f) := Replace(Secure(files, o, g), o, g);
      if replaced && o.starts then (0, RemovePackage(f, o.cleanup, g.uncleaned))
      else (-1, Rollback(f, o, g))
  }

  // ---- all or nothing ----

  predicate SameFile(a: Files, b: Files, p: Path) {
    (p in a <==> p in b) && (p in a ==> a[p] == b[p])
  }

  /** The new program with either all the new libraries or the libraries that were there. */
  ghost predicate IsUpgraded(before: Files, after: Files) {
    && New(BIN) in before && App(BIN) in after && after[App(BIN)] == before[New(BIN)]
    && (forall n :: n in {CJSON, CORE, MICROHTTPD} ==>
          if New(CORE) in before then New(n) in before && App(n) in after && after[App(n)] == before[New(n)]
          else SameFile(before, after, App(n)))
  }

  /** The program and every library that existed have their old contents. */
  ghost predicate IsRestored(before: Files, after: Files) {
    && SameFile(before, after, App(BIN))
    && forall n :: n in Libs(before) ==> SameFile(before, after, App(n))
  }

  ghost predicate AllOrNothing(before: Files, code: int, after: Files) {
    if code == 0 then IsUpgraded(before, after) else IsRestored(before, after)
  }

  /** A device to upgrade: the program is installed, and only libraries are backed up. */
  ghost predicate Installed(files: Files) {
    App(BIN) in files && forall p :: p in files && p.Backup? ==> IsSo(p.name)
  }

  /** Whether the upgrade goes through does not depend on what failures leave behind. */
  predicate GoesThrough(files: Files, o: Outcomes) {
    && New(BIN) in files && o.replaceBin && o.starts
    && (New(CORE) in files ==> New(CJSON) in files && New(MICROHTTPD) in files && o.cjson && o.core && o.microhttpd)
  }

  /** Nothing needed for a rollback failed. */
  predicate CanRollBack(files: Files, o: Outcomes) {
    o.backupBin && o.restoreBin && (Libs(files) != {} ==> o.backupLibs && o.restoreLibs)
  }

  lemma {:induction false} BackupLibsIs(files: Files, ok: bool, left: map<string, string>)
    ensures var r := BackupLibs(files, ok, left);
      && (forall p: Path :: !p.Backup? ==> (p in files <==> p in r) && (p in files ==> files[p] == r[p]))
      && (forall n :: n !in Libs(files) ==>
            (Backup(n) in files <==> Backup(n) in r) && (Backup(n) in files ==> files[Backup(n)] == r[Backup(n)]))
      && (ok ==> forall n :: n in Libs(files) ==> Backup(n) in r && r[Backup(n)] == files[App(n)])
      && (!ok ==> forall n :: n in Libs(files) ==>
            (Backup(n) in r <==> n in left) && (n in left ==> r[Backup(n)] == left[n]))
  {
  }

  lemma {:induction false} RestoreLibsIs(files: Files, ok: bool, left: map<string, string>)
    ensures var r := RestoreLibs(files, ok, left);
      && (forall p: Path :: !p.App? ==> (p in files <==> p in r) && (p in files ==> files[p] == r[p]))
      && (forall n :: Backup(n) !in files ==>
            (App(n) in files <==> App(n) in r) && (App(n) in files ==> files[App(n)] == r[App(n)]))
      && (ok ==> forall n :: Backup(n) in files ==> App(n) in r && r[App(n)] == files[Backup(n)])
      && (!ok ==> forall n :: Backup(n) in files ==> (App(n) in r <==> n in left) && (n in left ==> r[App(n)] == left[n]))
  {
    assert forall n :: n in BackedUp(files) <==> Backup(n) in files;
  }

  lemma {:induction false} LibsSame(a: Files, b: Files)
    requires forall n :: IsSo(n) ==> (App(n) in a <==> App(n) in b)
    ensures Libs(a) == Libs(b)
  {
    assert forall n :: n in Libs(a) <==> App(n) in a && IsSo(n);
    assert forall n :: n in Libs(b) <==> App(n) in b && IsSo(n);
  }

  /** Securing touches nothing but backups. */
  lemma {:induction false} SecureIs(files: Files, o: Outcomes, g: Garbage)
    ensures var f := Secure(files, o, g);
      && (forall p: Path :: !p.Backup? && p != App(BIN_BACKUP) ==>
            (p in files <==> p in f) && (p in files ==> files[p] == f[p]))
      && Libs(f) == Libs(files)
  {
    hide BackupLibs, Libs;
    var f0 := Copy(files, App(BIN), App(BIN_BACKUP), o.backupBin, g.backupBin).1;
    BackupLibsIs(f0, o.backupLibs, g.backupLibs);
    assert !IsSo(BIN_BACKUP);
    LibsSame(files, Secure(files, o, g));
  }

  lemma {:induction false} CopyIs(files: Files, src: Path, dst: Path, ok: bool, left: Option<string>)
    ensures var (done, f) := Copy(files, src, dst, ok, left);
      && (done <==> ok && src in files)
      && (done ==> dst in f && f[dst] == files[src])
      && (forall p :: p != dst ==> (p in files <==> p in f) && (p in files ==> files[p] == f[p]))
  {
  }

  /** Replacing touches nothing but the program and the three libraries; it goes through when
      every copy does, and then they are the new ones. */
  lemma {:induction false} ReplaceIs(files: Files, o: Outcomes, g: Garbage)
    requires New(BIN) in files
    ensures var (done, f) := Replace(files, o, g);
      && (forall p :: p !in {App(BIN), App(CJSON), App(CORE), App(MICROHTTPD)} ==>
            (p in files <==> p in f) && (p in files ==> files[p] == f[p]))
      && (done && o.starts <==> GoesThrough(files, o))
      && (done ==> IsUpgraded(files, f))
  {
    hide Copy;
    CopyIs(files, New(BIN), App(BIN), o.replaceBin, g.replaceBin);
    if New(CORE) in files {
      var (b, f0) := Copy(files, New(BIN), App(BIN), o.replaceBin, g.replaceBin);
      CopyIs(f0, New(CJSON), App(CJSON), o.cjson, g.cjson);
      var (c, f1) := ReplaceLib(f0, b, CJSON, o.cjson, g.cjson);
      CopyIs(f1, New(CORE), App(CORE), o.core, g.core);
      var (w, f2) := ReplaceLib(f1, c, CORE, o.core, g.core);
      CopyIs(f2, New(MICROHTTPD), App(MICROHTTPD), o.microhttpd, g.microhttpd);
    }
  }

  /** The return code, from the package and the outcomes alone. */
  lemma {:induction false} SucceedsWhen(files: Files, o: Outcomes, g: Garbage)
    ensures Upgrade(files, o, g).0 == if GoesThrough(files, o) then 0 else -1
  {
    hide Secure, Replace, Libs, RemovePackage, Rollback, IsUpgraded;
    if New(BIN) in files {
      SecureIs(files, o, g);
      ReplaceIs(Secure(files, o, g), o, g);
    }
  }

  lemma {:induction false} PackageOnly(files: Files, ok: bool, left: set<string>)
    ensures var r := RemovePackage(files, ok, left);
      forall n :: (App(n) in files <==> App(n) in r) && (App(n) in files ==> files[App(n)] == r[App(n)])
  {
  }

  /** On success everything is new, or the libraries are what they were. */
  lemma {:induction false} SuccessUpgrades(files: Files, o: Outcomes, g: Garbage)
    requires Upgrade(files, o, g).0 == 0
    ensures IsUpgraded(files, Upgrade(files, o, g).1)
  {
    hide Secure, Replace, Libs, RemovePackage, Rollback;
    var f := Secure(files, o, g);
    SecureIs(files, o, g);
    ReplaceIs(f, o, g);
    PackageOnly(Replace(f, o, g).1, o.cleanup, g.uncleaned);
  }

  /** What securing kept, when it worked. */
  lemma {:induction false} SecureKeeps(files: Files, o: Outcomes, g: Garbage)
    requires Installed(files) && o.backupBin && (Libs(files) != {} ==> o.backupLibs)
    ensures var f := Secure(files, o, g);
      && App(BIN_BACKUP) in f && f[App(BIN_BACKUP)] == files[App(BIN)]
      && (forall n :: n in Libs(files) ==> Backup(n) in f && f[Backup(n)] == files[App(n)])
      && (forall n :: Backup(n) in f ==> IsSo(n))
  {
    var f0 := Copy(files, App(BIN), App(BIN_BACKUP), o.backupBin, g.backupBin).1;
    BackupLibsIs(f0, o.backupLibs, g.backupLibs);
    assert !IsSo(BIN_BACKUP);
    LibsSame(files, f0);
  }

  /** What a rollback that works restores. */
  lemma {:induction false} RollbackRestores(files: Files, f: Files, o: Outcomes, g: Garbage)
    requires Installed(files) && o.restoreBin && (Libs(files) != {} ==> o.restoreLibs)
    requires App(BIN_BACKUP) in f && f[App(BIN_BACKUP)] == files[App(BIN)]
    requires forall n :: n in Libs(files) ==> Backup(n) in f && f[Backup(n)] == files[App(n)]
    requires forall n :: Backup(n) in f ==> IsSo(n)
    ensures IsRestored(files, Rollback(f, o, g))
  {
    var f1 := Copy(f, App(BIN_BACKUP), App(BIN), o.restoreBin, g.restoreBin).1;
    RestoreLibsIs(f1, o.restoreLibs, g.restoreLibs);
    assert !IsSo(BIN);
    assert Backup(BIN) !in f1;
    assert forall n :: n in Libs(files) ==> App(n) in files;
  }

  lemma {:induction false} NothingLost(files: Files)
    ensures IsRestored(files, files)
  {
  }

  /** All or nothing, whatever fails in between and whatever it leaves behind, as long as a
      rollback has what it needs. */
  lemma {:induction false} UpgradeIsAllOrNothing(files: Files, o: Outcomes, g: Garbage)
    requires Installed(files)
    requires GoesThrough(files, o) || New(BIN) !in files || CanRollBack(files, o)
    ensures AllOrNothing(files, Upgrade(files, o, g).0, Upgrade(files, o, g).1)
  {
    hide Secure, Replace, RemovePackage, Rollback, IsUpgraded, IsRestored;
    SucceedsWhen(files, o, g);
    if New(BIN) !in files {
      assert IsRestored(files, files) by { NothingLost(files); }
    } else if GoesThrough(files, o) {
      SuccessUpgrades(files, o, g);
    } else if New(BIN) in files {
      SecureKeeps(files, o, g);
      SecureIs(files, o, g);
      ReplaceIs(Secure(files, o, g), o, g);
      RollbackRestores(files, Replace(Secure(files, o, g), o, g).1, o, g);
    }
  }

  /** A failed upgrade that can be rolled back leaves every library that was there as it was. */
  lemma {:induction false} LibrariesRestored(files: Files, o: Outcomes, g: Garbage)
    requires Installed(files) && CanRollBack(files, o) && Upgrade(files, o, g).0 == -1
    ensures var after := Upgrade(files, o, g).1;
      && (forall n :: n in {CJSON, CORE, MICROHTTPD} && App(n) in files ==> SameFile(files, after, App(n)))
      && (forall m: string :: m != [] && m[0] != '.' && App(m + ".so") in files ==> SameFile(files, after, App(m + ".so")))
  {
    hide Upgrade, SameFile, IsSo;
    UpgradeIsAllOrNothing(files, o, g);
    PackageLibrariesAreSo();
    forall m: string | m != [] && m[0] != '.' && App(m + ".so") in files ensures m + ".so" in Libs(files) {
      IsSoIs(m + ".so");
    }
  }

  // ---- file by file ----

  lemma {:induction false} SecureAt(files: Files, o: Outcomes, g: Garbage, p: Path)
    ensures !p.Backup? && p != App(BIN_BACKUP) ==> SameFile(files, Secure(files, o, g), p)
  {
    hide Secure, Libs;
    SecureIs(files, o, g);
  }

  lemma {:induction false} ReplaceAt(files: Files, o: Outcomes, g: Garbage, p: Path)
    requires New(BIN) in files
    ensures p !in {App(BIN), App(CJSON), App(CORE), App(MICROHTTPD)} ==> SameFile(files, Replace(files, o, g).1, p)
  {
    hide Replace, IsUpgraded;
    ReplaceIs(files, o, g);
  }

  lemma {:induction false} RollbackAt(files: Files, o: Outcomes, g: Garbage, p: Path)
    ensures !p.App? || (p != App(BIN) && Backup(p.name) !in files) ==> SameFile(files, Rollback(files, o, g), p)
  {
    hide Copy, RestoreLibs;
    CopyIs(files, App(BIN_BACKUP), App(BIN), o.restoreBin, g.restoreBin);
    RestoreLibsIs(Copy(files, App(BIN_BACKUP), App(BIN), o.restoreBin, g.restoreBin).1, o.restoreLibs, g.restoreLibs);
  }

  lemma {:induction false} RemoveAt(files: Files, ok: bool, left: set<string>, p: Path)
    ensures var r := RemovePackage(files, ok, left);
      if p.New? && (ok || p.name !in left) then p !in r else SameFile(files, r, p)
  {
  }

  /** The package, the backups and all files that no step is meant to touch, one by one. */
  lemma {:induction false} UpgradeAt(files: Files, o: Outcomes, g: Garbage, p: Path)
    requires New(BIN) in files
    ensures var f, (code, after) := Secure(files, o, g), Upgrade(files, o, g);
      && (p.Backup? || (p == App(BIN_BACKUP) && Backup(BIN_BACKUP) !in f) ==> SameFile(f, after, p))
      && (p.App? && p.name !in {BIN, BIN_BACKUP, CJSON, CORE, MICROHTTPD} && (code == 0 || Backup(p.name) !in f) ==>
            SameFile(files, after, p))
      && (p.New? ==> if code == 0 && (o.cleanup || p.name !in g.uncleaned) then p !in after else SameFile(files, after, p))
  {
    hide Secure, Replace, Rollback, RemovePackage;
    var f := Secure(files, o, g);
    SecureAt(files, o, g, p);
    SecureAt(files, o, g, New(BIN));
    ReplaceAt(f, o, g, p);
    ReplaceAt(f, o, g, Backup(BIN_BACKUP));
    if p.App? {
      ReplaceAt(f, o, g, Backup(p.name));
    }
    var r := Replace(f, o, g).1;
    RemoveAt(r, o.cleanup, g.uncleaned, p);
    RollbackAt(r, o, g, p);
  }

  /** The unpacked package goes on success, as far as it can be removed, and stays on failure. */
  lemma {:induction false} PackageAfter(files: Files, o: Outcomes, g: Garbage, n: string)
    ensures var (code, after) := Upgrade(files, o, g);
      && (code == 0 && (o.cleanup || n !in g.uncleaned) ==> New(n) !in after)
      && (code == 0 && !o.cleanup && n in g.uncleaned ==> SameFile(files, after, New(n)))
      && (code != 0 ==> SameFile(files, after, New(n)))
  {
    hide Secure, Replace, Rollback, RemovePackage;
    if New(BIN) in files {
      UpgradeAt(files, o, g, New(n));
    }
  }

  lemma {:induction false} SecuredBinary(files: Files, o: Outcomes, g: Garbage)
    requires Installed(files)
    ensures var s := Secure(files, o, g);
      && (o.backupBin ==> App(BIN_BACKUP) in s && s[App(BIN_BACKUP)] == files[App(BIN)])
      && (!o.backupBin && g.backupBin.Some? ==> App(BIN_BACKUP) in s && s[App(BIN_BACKUP)] == g.backupBin.value)
      && forall n :: Backup(n) in s ==> IsSo(n)
  {
    var f0 := Copy(files, App(BIN), App(BIN_BACKUP), o.backupBin, g.backupBin).1;
    BackupLibsIs(f0, o.backupLibs, g.backupLibs);
  }

  /** Files of the application other than the program, its backup and libraries stay in any case,
      and on success so do all libraries but the three of the package. */
  lemma {:induction false} OtherFilesStay(files: Files, o: Outcomes, g: Garbage, n: string)
    requires Installed(files) && n !in {BIN, BIN_BACKUP, CJSON, CORE, MICROHTTPD}
    requires Upgrade(files, o, g).0 == 0 || !IsSo(n)
    ensures SameFile(files, Upgrade(files, o, g).1, App(n))
  {
    hide Secure, Replace, Rollback, RemovePackage, IsSo;
    if New(BIN) in files {
      SecuredBinary(files, o, g);
      UpgradeAt(files, o, g, App(n));
    }
  }

  lemma {:induction false} SecuredLibraries(files: Files, o: Outcomes, g: Garbage)
    requires o.backupLibs
    ensures var f := Secure(files, o, g);
      forall n :: IsSo(n) && App(n) in files ==> Backup(n) in f && f[Backup(n)] == files[App(n)]
  {
    hide BackupLibs;
    var f0 := Copy(files, App(BIN), App(BIN_BACKUP), o.backupBin, g.backupBin).1;
    BackupLibsIs(f0, o.backupLibs, g.backupLibs);
    assert !IsSo(BIN_BACKUP);
    assert forall n :: IsSo(n) && App(n) in files ==> n in Libs(f0) && f0[App(n)] == files[App(n)];
  }

  /** Backups that were made stay, whether or not the upgrade succeeds. */
  lemma {:induction false} BackupsKept(files: Files, o: Outcomes, g: Garbage)
    requires Installed(files) && New(BIN) in files
    ensures var after := Upgrade(files, o, g).1;
      && (o.backupBin ==> App(BIN_BACKUP) in after && after[App(BIN_BACKUP)] == files[App(BIN)])
      && (o.backupLibs ==> forall n :: IsSo(n) && App(n) in files ==> Backup(n) in after && after[Backup(n)] == files[App(n)])
  {
    hide Upgrade, Secure, IsSo;
    PackageLibrariesAreSo();
    SecuredBinary(files, o, g);
    UpgradeAt(files, o, g, App(BIN_BACKUP));
    if o.backupLibs {
      SecuredLibraries(files, o, g);
      forall n | IsSo(n) && App(n) in files
        ensures var after := Upgrade(files, o, g).1; Backup(n) in after && after[Backup(n)] == files[App(n)]
      {
        UpgradeAt(files, o, g, Backup(n));
      }
    }
  }

  /** 0 is returned exactly if the program and, where the package has the core library, the three
      libraries could be copied and the program started; then they are the new ones. */
  ghost predicate Replaced(before: Files, o: Outcomes, code: int, after: Files) {
    && (code == 0 || code == -1)
    && (code == 0 <==>
          && New(BIN) in before && o.replaceBin && o.starts
          && (New(CORE) in before ==> New(CJSON) in before && New(MICROHTTPD) in before && o.cjson && o.core && o.microhttpd))
    && (code == 0 ==>
          && App(BIN) in after && after[App(BIN)] == before[New(BIN)]
          && forall n :: n in {CJSON, CORE, MICROHTTPD} ==>
                if New(CORE) in before then App(n) in after && New(n) in before && after[App(n)] == before[New(n)]
                else SameFile(before, after, App(n)))
  }

  lemma {:induction false} ReplacedExactly(files: Files, o: Outcomes, g: Garbage)
    ensures Replaced(files, o, Upgrade(files, o, g).0, Upgrade(files, o, g).1)
  {
    hide Upgrade, SameFile;
    SucceedsWhen(files, o, g);
    if GoesThrough(files, o) {
      SuccessUpgrades(files, o, g);
    }
  }

  /** On -1, if the program was there, nothing was backed up before, and the backups and restores
      work, the program and all files "*.so" that were there are what they were. */
  ghost predicate Restored(before: Files, o: Outcomes, code: int, after: Files) {
    code == -1 && App(BIN) in before && (forall p :: p in before ==> !p.Backup?)
    && o.backupBin && o.backupLibs && o.restoreBin && o.restoreLibs
    ==>
      && SameFile(before, after, App(BIN))
      && (forall n :: n in {CJSON, CORE, MICROHTTPD} && App(n) in before ==> SameFile(before, after, App(n)))
      && (forall m: string :: m != [] && m[0] != '.' && App(m + ".so") in before ==> SameFile(before, after, App(m + ".so")))
  }

  lemma {:induction false} FailureRestores(files: Files, o: Outcomes, g: Garbage)
    ensures Restored(files, o, Upgrade(files, o, g).0, Upgrade(files, o, g).1)
  {
    hide Upgrade, SameFile, IsSo;
    if Upgrade(files, o, g).0 == -1 && App(BIN) in files && (forall p :: p in files ==> !p.Backup?)
      && o.backupBin && o.backupLibs && o.restoreBin && o.restoreLibs
    {
      UpgradeIsAllOrNothing(files, o, g);
      LibrariesRestored(files, o, g);
    }
  }

  class Device {
    var files: Files

    constructor (files: Files)
      ensures this.files == files
    {
      this.files := files;
    }

    method Cp(src: Path, dst: Path, ok: bool, left: Option<string>) returns (done: bool)
      modifies this
      ensures (done, files) == Copy(old(files), src, dst, ok, left)
    {
      if src !in files {
        return false;
      }
      files := if ok then files[dst := files[src]] else Put(files, dst, left);
      done := ok;
    }

    /** The replacement commands, up to the first that fails. */
    method ReplaceFiles(hasLibs: bool, o: Outcomes, g: Garbage) returns (done: bool)
      requires hasLibs == (New(CORE) in files)
      modifies this
      ensures (done, files) == Replace(old(files), o, g)
    {
      done := Cp(New(BIN), App(BIN), o.replaceBin, g.replaceBin);
      if !done {
        return;
      }
      if hasLibs {
        done := Cp(New(CJSON), App(CJSON), o.cjson, g.cjson);
        if !done {
          return;
        }
        done := Cp(New(CORE), App(CORE), o.core, g.core);
        if !done {
          return;
        }
        done := Cp(New(MICROHTTPD), App(MICROHTTPD), o.microhttpd, g.microhttpd);
      }
    }

    /** What the theorems above say of an upgrade of these files. */
    lemma {:induction false} Promises(o: Outcomes, g: Garbage)
      ensures var (code, after) := Upgrade(files, o, g);
        && Replaced(files, o, code, after) && Restored(files, o, code, after)
        && code == (if GoesThrough(files, o) then 0 else -1)
        && (Installed(files) && CanRollBack(files, o) ==> AllOrNothing(files, code, after))
        && (Installed(files) && CanRollBack(files, o) && code == -1 ==>
              forall n :: n in {CJSON, CORE, MICROHTTPD} && App(n) in files ==> SameFile(files, after, App(n)))
    {
      hide Upgrade, AllOrNothing, SameFile;
      ReplacedExactly(files, o, g);
      FailureRestores(files, o, g);
      if Installed(files) && CanRollBack(files, o) && Upgrade(files, o, g).0 == -1 {
        LibrariesRestored(files, o, g);
      }
      SucceedsWhen(files, o, g);
      if Installed(files) && CanRollBack(files, o) {
        UpgradeIsAllOrNothing(files, o, g);
      }
    }

    /** `perform_app_upgrade`. The results of the backup and restore commands are not looked at. */
    method PerformAppUpgrade(o: Outcomes, g: Garbage) returns (code: int)
      modifies this
      ensures (code, files) == Upgrade(old(files), o, g)
      ensures Replaced(old(files), o, code, files) && Restored(old(files), o, code, files)
      ensures code == if GoesThrough(old(files), o) then 0 else -1
      ensures Installed(old(files)) && CanRollBack(old(files), o) ==> AllOrNothing(old(files), code, files)
      ensures Installed(old(files)) && CanRollBack(old(files), o) && code == -1 ==>
        forall n :: n in {CJSON, CORE, MICROHTTPD} && App(n) in old(files) ==> SameFile(old(files), files, App(n))
    {
      Promises(o, g);
      hide BackupLibs, RestoreLibs, Copy, Replace, RemovePackage, AllOrNothing, SameFile, CanRollBack, Installed, GoesThrough, Replaced, Restored;
      if New(BIN) !in files {
        return -1;
      }
      var hasLibs := New(CORE) in files;
      var ignored := Cp(App(BIN), App(BIN_BACKUP), o.backupBin, g.backupBin);
      files := BackupLibs(files, o.backupLibs, g.backupLibs);
      SecureIs(old(files), o, g);
      var done := ReplaceFiles(hasLibs, o, g);
      if done && o.starts {
        files := RemovePackage(files, o.cleanup, g.uncleaned);
        return 0;
      }
      ignored := Cp(App(BIN_BACKUP), App(BIN), o.restoreBin, g.restoreBin);
      files := RestoreLibs(files, o.restoreLibs, g.restoreLibs);
      return -1;
    }
  }

  // ---- and no further ----

  function Other(c: string): string {
    c + "x"
  }

  /** The worst that failures can leave: files that look right and are not. */
  function Worst(files: Files): Garbage
    requires App(BIN) in files
  {
    var bad := Some(Other(files[App(BIN)]));
    var libs := map n | n in Libs(files) :: Other(files[App(n)]);
    Garbage(bad, libs, None, None, None, None, {}, bad, libs)
  }

  lemma {:induction false} RolledBackBinary(f: Files, o: Outcomes, g: Garbage)
    requires App(BIN_BACKUP) in f && g.restoreBin.Some? && forall n :: Backup(n) in f ==> IsSo(n)
    ensures var r := Rollback(f, o, g);
      App(BIN) in r && r[App(BIN)] == if o.restoreBin then f[App(BIN_BACKUP)] else g.restoreBin.value
  {
    var f1 := Copy(f, App(BIN_BACKUP), App(BIN), o.restoreBin, g.restoreBin).1;
    RestoreLibsIs(f1, o.restoreLibs, g.restoreLibs);
    assert !IsSo(BIN);
    assert Backup(BIN) !in f1;
  }

  lemma {:induction false} WorstBinary(files: Files, o: Outcomes)
    requires Installed(files) && New(BIN) in files && !GoesThrough(files, o)
    requires !(o.backupBin && o.restoreBin)
    ensures !SameFile(files, Upgrade(files, o, Worst(files)).1, App(BIN))
  {
    hide Secure, Replace, RemovePackage, Rollback, IsUpgraded, Libs;
    var g := Worst(files);
    SucceedsWhen(files, o, g);
    SecureIs(files, o, g);
    var s := Secure(files, o, g);
    ReplaceIs(s, o, g);
    var f := Replace(s, o, g).1;
    SecuredBinary(files, o, g);
    RolledBackBinary(f, o, g);
    assert Other(files[App(BIN)]) != files[App(BIN)];
  }

  lemma {:induction false} LibExists(files: Files, n: string)
    requires n in Libs(files)
    ensures App(n) in files
  {
  }

  lemma {:induction false} SecuredLibrary(files: Files, o: Outcomes, g: Garbage, n: string)
    requires n in Libs(files) && n in g.backupLibs
    ensures var s := Secure(files, o, g);
      Backup(n) in s && s[Backup(n)] == if o.backupLibs then files[App(n)] else g.backupLibs[n]
  {
    hide BackupLibs;
    var f0 := Copy(files, App(BIN), App(BIN_BACKUP), o.backupBin, g.backupBin).1;
    BackupLibsIs(f0, o.backupLibs, g.backupLibs);
    assert !IsSo(BIN_BACKUP) && n in Libs(f0) && f0[App(n)] == files[App(n)];
  }

  lemma {:induction false} RolledBackLibrary(f: Files, o: Outcomes, g: Garbage, n: string)
    requires Backup(n) in f && n in g.restoreLibs
    ensures var r := Rollback(f, o, g);
      App(n) in r && r[App(n)] == if o.restoreLibs then f[Backup(n)] else g.restoreLibs[n]
  {
    hide RestoreLibs;
    var f1 := Copy(f, App(BIN_BACKUP), App(BIN), o.restoreBin, g.restoreBin).1;
    RestoreLibsIs(f1, o.restoreLibs, g.restoreLibs);
  }

  lemma {:induction false} WorstLibrary(files: Files, o: Outcomes, n: string)
    requires Installed(files) && New(BIN) in files && !GoesThrough(files, o)
    requires n in Libs(files) && !(o.backupLibs && o.restoreLibs)
    ensures !SameFile(files, Upgrade(files, o, Worst(files)).1, App(n))
  {
    hide Secure, Replace, RemovePackage, Rollback, IsUpgraded, Libs;
    var g := Worst(files);
    SucceedsWhen(files, o, g);
    var s := Secure(files, o, g);
    SecuredLibrary(files, o, g, n);
    SecureIs(files, o, g);
    ReplaceIs(s, o, g);
    var f := Replace(s, o, g).1;
    RolledBackLibrary(f, o, g, n);
    assert App(n) in files by { LibExists(files, n); }
    assert Other(files[App(n)]) != files[App(n)];
  }

  /** The upgrade is all-or-nothing whatever failing copies leave behind exactly if it goes
      through, or has nothing to install, or neither a backup nor a restore fails. */
  lemma {:induction false} AllOrNothingExactly(files: Files, o: Outcomes)
    requires Installed(files)
    ensures (forall g :: AllOrNothing(files, Upgrade(files, o, g).0, Upgrade(files, o, g).1))
      <==> GoesThrough(files, o) || New(BIN) !in files || CanRollBack(files, o)
  {
    hide Upgrade, Worst;
    if GoesThrough(files, o) || New(BIN) !in files || CanRollBack(files, o) {
      forall g ensures AllOrNothing(files, Upgrade(files, o, g).0, Upgrade(files, o, g).1) {
        UpgradeIsAllOrNothing(files, o, g);
      }
    } else {
      var g := Worst(files);
      SucceedsWhen(files, o, g);
      if !(o.backupBin && o.restoreBin) {
        WorstBinary(files, o);
      } else {
        var n :| n in Libs(files);
        WorstLibrary(files, o, n);
      }
      assert !AllOrNothing(files, Upgrade(files, o, g).0, Upgrade(files, o, g).1);
    }
  }
}
