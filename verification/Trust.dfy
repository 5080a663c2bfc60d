/** When a manifest must not be trusted: it names another snapshot or another log, lies beyond the log,
    has no snapshot beside it, or cannot be read. Recovery then goes by the log alone. */
module Trust {
  import opened Wrappers
  import opened Resp
  import opened Store
  import opened Node
  import opened Manifest
  import opened Disk
  import opened Durability
  import opened Limited

  /** The manifest speaks of these files. */
  predicate Speaks(cfg: Config, m: Manifest, aof: string, snapshot: Option<string>) {
    && m.snapshotPath == cfg.snapshotPath && m.aofPath == cfg.aofPath
    && m.offset <= |aof| && snapshot.Some?
  }

  /** A written manifest is used, and then with its own offset, if and only if it speaks of these files. */
  lemma TrustedExactly(cfg: Config, m: Manifest, aof: string, snapshot: Option<string>)
    requires Writable(m)
    ensures UsableOffset(cfg, Files(aof, snapshot, Some(ManifestText(m)))) ==
            if Speaks(cfg, m, aof, snapshot) then Some(m.offset) else None
  {
    hide ManifestText, ReadManifest, Writable;
    ManifestRoundTrip(m);
  }

  /** Files with a manifest that is not used recover like the same files without it. */
  lemma UnusedIsAbsent(cfg: Config, limit: nat, f: Files, at: int)
    requires UsableOffset(cfg, f).None?
    ensures RecoverFiles(cfg, f, at) == RecoverFiles(cfg, f.(manifest := None), at)
    ensures RecoverWithin(cfg, limit, f, at) == RecoverWithin(cfg, limit, f.(manifest := None), at)
    ensures RecoverFiles(cfg, f, at) == ReplayBytes(cfg, map[], at, f.aof, 0)
  {
    hide ReplayBytes, LoadBytes, ReplayBytesWithin, LoadBytesWithin, UsableOffset;
    NoManifestUnusable(cfg, f.(manifest := None));
  }

  /** A manifest with another snapshot path, another log path, an offset beyond the log, or no snapshot:
      recovery, with or without a memory limit, is as if it were not there. */
  lemma UntrustedManifest(cfg: Config, limit: nat, m: Manifest, aof: string, snapshot: Option<string>, at: int)
    requires Writable(m)
    requires m.snapshotPath != cfg.snapshotPath || m.aofPath != cfg.aofPath || m.offset > |aof| || snapshot.None?
    ensures var f := Files(aof, snapshot, Some(ManifestText(m)));
            && RecoverFiles(cfg, f, at) == RecoverFiles(cfg, f.(manifest := None), at)
            && RecoverWithin(cfg, limit, f, at) == RecoverWithin(cfg, limit, f.(manifest := None), at)
  {
    hide ManifestText, RecoverFiles, RecoverWithin, UsableOffset, Writable;
    TrustedExactly(cfg, m, aof, snapshot);
    UnusedIsAbsent(cfg, limit, Files(aof, snapshot, Some(ManifestText(m))), at);
  }

  /** The files of any run, found by a server configured with another log or snapshot path, recover from
      the log alone. */
  lemma ForeignFiles(cfg: Config, other: Config, limit: nat, events: seq<Event>, at: int, later: int)
    requires Served(other, events, at) && other.manifestNamed
    requires other.snapshotPath != cfg.snapshotPath || other.aofPath != cfg.aofPath
    ensures var f := FilesAfter(other, events).files;
            && RecoverFiles(cfg, f, later) == ReplayBytes(cfg, map[], later, f.aof, 0)
            && RecoverWithin(cfg, limit, f, later) == RecoverWithin(cfg, limit, f.(manifest := None), later)
  {
    hide RecoverFiles, RecoverWithin, UsableOffset, ReplayBytes, FilesAfter, Served, EncodeAll, ManifestText;
    RunManifest(other, events, at);
    var f := FilesAfter(other, events).files;
    if f.manifest.Some? {
      var offset, created :| Writable(Manifest(other.snapshotPath, other.aofPath, offset, created))
        && f.manifest == Some(ManifestText(Manifest(other.snapshotPath, other.aofPath, offset, created)));
      TrustedExactly(cfg, Manifest(other.snapshotPath, other.aofPath, offset, created), f.aof, f.snapshot);
      assert f == Files(f.aof, f.snapshot, f.manifest);
    } else {
      NoManifestUnusable(cfg, f);
    }
    UnusedIsAbsent(cfg, limit, f, later);
  }

  /** A manifest left by a run names the paths of its server. */
  lemma RunManifest(cfg: Config, events: seq<Event>, at: int)
    requires Served(cfg, events, at) && cfg.manifestNamed
    ensures var f := FilesAfter(cfg, events).files;
            f.manifest.Some? ==>
              exists offset: nat, created: int ::
                && Writable(Manifest(cfg.snapshotPath, cfg.aofPath, offset, created))
                && f.manifest == Some(ManifestText(Manifest(cfg.snapshotPath, cfg.aofPath, offset, created)))
  {
    hide EncodeAll, ManifestText, LegalRun, After, FilesAfter, SmallAtRestarts, WireRun, Small, Workable, Clean;
    RunIsReadable(cfg, events, at);
    var n := After(cfg.Limits(), events);
    if n.mark.Some? {
      var log, i := n.log, n.mark.value.position;
      assert log == log[..i] + log[i..];
      EncodeAppend(log[..i], log[i..]);
      assert Writable(Manifest(cfg.snapshotPath, cfg.aofPath, |EncodeAll(log[..i])|, n.mark.value.created));
    }
  }
}
