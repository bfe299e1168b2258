/** The per-path cache of GGUF metadata, and when it can be trusted. */
module GgufCache {
  import opened Wrappers
  import opened Bytes
  import opened Gguf

  datatype FileState = FileState(bytes: seq<byte>, mtime: real)

  /** Files by path; a path that is absent cannot be examined. */
  type Files = map<string, FileState>

  datatype InfoError = NotFound | NotGguf

  /**
    What a lookup returns. `own` is all that comes from the file's own bytes; every field of the
    result but `supportsDraft` is a function of it. `supportsDraft` also depends on other files.
  */
  datatype Info = Info(path: string, own: (Metadata, bool), supportsDraft: bool, fileSize: nat, mtime: real)

  datatype Cached = Cached(fileSize: nat, mtime: real, info: Info)

  /** A read without a cache. */
  function FreshInfo(text: seq<byte> -> string, files: Files, path: string, draft: bool): Result<Info, InfoError> {
    if path !in files then Err(NotFound)
    else
      var f := files[path];
      match ReadFile(text, f.bytes)
      case Err(_) => Err(NotGguf)
      case Ok(own) => Ok(Info(path, own, draft, |f.bytes|, f.mtime))
  }

  predicate Hit(cache: map<string, Cached>, files: Files, path: string) {
    && path in cache && path in files
    && cache[path].fileSize == |files[path].bytes| && cache[path].mtime == files[path].mtime
  }

  function Lookup(text: seq<byte> -> string, cache: map<string, Cached>, files: Files, path: string, draft: bool)
    : (Result<Info, InfoError>, map<string, Cached>)
  {
    if path !in files then (Err(NotFound), cache - {path})
    else if Hit(cache, files, path) then (Ok(cache[path].info), cache)
    else
      var r := FreshInfo(text, files, path, draft);
      (r, if r.Ok? then cache[path := Cached(|files[path].bytes|, files[path].mtime, r.value)] else cache)
  }

  class InfoCache {
    const text: seq<byte> -> string
    var cache: map<string, Cached>

    constructor (text: seq<byte> -> string)
      ensures this.text == text && cache == map[]
    {
      this.text, cache := text, map[];
    }

    /** A failed examination drops the entry of the path; a failed read leaves it alone. */
    method GetInfoCached(files: Files, path: string, draft: bool) returns (r: Result<Info, InfoError>)
      modifies this
      ensures (r, cache) == Lookup(text, old(cache), files, path, draft)
    {
      if path !in files {
        cache := cache - {path};
        return Err(NotFound);
      }
      var stat := files[path];
      if path in cache {
        var cached := cache[path];
        if cached.fileSize == |stat.bytes| && cached.mtime == stat.mtime {
          return Ok(cached.info);
        }
      }
      r := ReadInfo(files, path, draft);
      if r.Err? {
        return;
      }
      cache := cache[path := Cached(|stat.bytes|, stat.mtime, r.value)];
    }

    method ReadInfo(files: Files, path: string, draft: bool) returns (r: Result<Info, InfoError>)
      ensures r == FreshInfo(text, files, path, draft)
    {
      if path !in files {
        return Err(NotFound);
      }
      var read := ReadFile(text, files[path].bytes);
      if read.Err? {
        return Err(NotGguf);
      }
      r := Ok(Info(path, read.value, draft, |files[path].bytes|, files[path].mtime));
    }
  }

  // ---------- runs of file changes and lookups ----------

  datatype Event = Change(path: string, now: Option<FileState>) | Ask(path: string, draft: bool)

  /** `versions` collects every state each path has ever had. */
  datatype World = World(files: Files, cache: map<string, Cached>, versions: set<(string, FileState)>)

  const Empty := World(map[], map[], {})

  function Step(text: seq<byte> -> string, w: World, e: Event): World {
    match e
    case Change(path, None) => w.(files := w.files - {path})
    case Change(path, Some(f)) => w.(files := w.files[path := f], versions := w.versions + {(path, f)})
    case Ask(path, draft) =>
      w.(cache := Lookup(text, w.cache, w.files, path, draft).1)
  }

  function RunFrom(text: seq<byte> -> string, w: World, events: seq<Event>): World {
    if events == [] then w else Step(text, RunFrom(text, w, events[..|events| - 1]), events[|events| - 1])
  }

  function Run(text: seq<byte> -> string, events: seq<Event>): World {
    RunFrom(text, Empty, events)
  }

  /** Size and modification time together identify what is read from a path, over all readable states it ever had. */
  ghost predicate StampsHonest(text: seq<byte> -> string, versions: set<(string, FileState)>) {
    forall p, f, g | (p, f) in versions && (p, g) in versions ::
      |f.bytes| == |g.bytes| && f.mtime == g.mtime && ReadFile(text, f.bytes).Ok? ==>
        ReadFile(text, f.bytes) == ReadFile(text, g.bytes)
  }

  /** The answers agree on everything that comes from the file's own bytes, and on failure. */
  predicate SameOwn(a: Result<Info, InfoError>, b: Result<Info, InfoError>) {
    if a.Ok? && b.Ok? then a.value == b.value.(supportsDraft := a.value.supportsDraft) else a == b
  }

  /** Every cache entry was a fresh read of a state its path really had, and files are such states. */
  ghost predicate CacheInv(text: seq<byte> -> string, w: World) {
    && (forall p | p in w.files :: (p, w.files[p]) in w.versions)
    && (forall p | p in w.cache :: EntryInv(text, w, p))
  }

  ghost predicate EntryInv(text: seq<byte> -> string, w: World, p: string)
    requires p in w.cache
  {
    var c := w.cache[p];
    exists f: FileState :: (p, f) in w.versions && IsReadOf(text, c, p, f)
  }

  ghost predicate IsReadOf(text: seq<byte> -> string, c: Cached, p: string, f: FileState) {
    && c.fileSize == |f.bytes| && c.mtime == f.mtime
    && FreshInfo(text, map[p := f], p, c.info.supportsDraft) == Ok(c.info)
  }

  lemma StepKeeps(text: seq<byte> -> string, w: World, e: Event)
    requires CacheInv(text, w)
    ensures CacheInv(text, Step(text, w, e))
  {
    hide ReadFile;
    var w' := Step(text, w, e);
    forall p | p in w'.cache ensures EntryInv(text, w', p) {
      if p in w.cache && w'.cache[p] == w.cache[p] {
        assert EntryInv(text, w, p);
        var f: FileState :| (p, f) in w.versions && IsReadOf(text, w.cache[p], p, f);
        assert (p, f) in w'.versions;
      } else {
        var f := w.files[p];
        assert IsReadOf(text, w'.cache[p], p, f);
        assert (p, f) in w'.versions;
      }
    }
  }

  lemma {:induction false} RunKeeps(text: seq<byte> -> string, events: seq<Event>)
    ensures CacheInv(text, Run(text, events))
    decreases |events|
  {
    if events != [] {
      RunKeeps(text, events[..|events| - 1]);
      assert Run(text, events[..|events| - 1]) == RunFrom(text, Empty, events[..|events| - 1]);
      StepKeeps(text, Run(text, events[..|events| - 1]), events[|events| - 1]);
    }
  }

  /** A lookup answers as a read without a cache would, failures included. */
  predicate Fresh(text: seq<byte> -> string, w: World, path: string, draft: bool) {
    SameOwn(Lookup(text, w.cache, w.files, path, draft).0, FreshInfo(text, w.files, path, draft))
  }

  /** After any run over honestly stamped files, every lookup is fresh. */
  lemma LookupIsFresh(text: seq<byte> -> string, events: seq<Event>, path: string, draft: bool)
    requires StampsHonest(text, Run(text, events).versions)
    ensures Fresh(text, Run(text, events), path, draft)
  {
    hide ReadFile, Run;
    RunKeeps(text, events);
    var w := Run(text, events);
    if Hit(w.cache, w.files, path) {
      assert EntryInv(text, w, path);
      var f: FileState :| (path, f) in w.versions && IsReadOf(text, w.cache[path], path, f);
      var g := w.files[path];
      assert (path, g) in w.versions;
      assert ReadFile(text, f.bytes) == ReadFile(text, g.bytes);
    }
  }

  /** A readable state, a lookup, and a state with an equal stamp that reads otherwise: the old answer comes back. */
  lemma EqualStampsGoStale(text: seq<byte> -> string, path: string, f: FileState, g: FileState, draft: bool)
    requires |f.bytes| == |g.bytes| && f.mtime == g.mtime
    requires ReadFile(text, f.bytes).Ok? && ReadFile(text, f.bytes) != ReadFile(text, g.bytes)
    ensures var w := Run(text, [Change(path, Some(f)), Ask(path, draft), Change(path, Some(g))]);
            && w.files[path] == g && w.versions == {(path, f), (path, g)}
            && Lookup(text, w.cache, w.files, path, draft).0 == FreshInfo(text, map[path := f], path, draft)
            && !Fresh(text, w, path, draft)
  {
    hide ReadFile;
    var e1, e2, e3 := Change(path, Some(f)), Ask(path, draft), Change(path, Some(g));
    RunOne(text, Empty, [], e1);
    RunOne(text, Empty, [e1], e2);
    RunOne(text, Empty, [e1, e2], e3);
    assert [e1] + [e2] == [e1, e2] && [e1, e2] + [e3] == [e1, e2, e3] && [] + [e1] == [e1];
  }

  lemma RunOne(text: seq<byte> -> string, w: World, events: seq<Event>, e: Event)
    ensures RunFrom(text, w, events + [e]) == Step(text, RunFrom(text, w, events), e)
  {
    assert (events + [e])[..|events|] == events;
  }

  /** The cache can be trusted, in every run over these states of the files, if and only if their stamps are honest. */
  lemma FreshExactly(text: seq<byte> -> string, versions: set<(string, FileState)>)
    ensures StampsHonest(text, versions) <==>
              forall events, path, draft | Run(text, events).versions <= versions :: Fresh(text, Run(text, events), path, draft)
  {
    hide ReadFile, Run, Fresh;
    if StampsHonest(text, versions) {
      forall events, path, draft | Run(text, events).versions <= versions ensures Fresh(text, Run(text, events), path, draft) {
        assert StampsHonest(text, Run(text, events).versions);
        LookupIsFresh(text, events, path, draft);
      }
    } else {
      var p, f, g :| (p, f) in versions && (p, g) in versions && |f.bytes| == |g.bytes| && f.mtime == g.mtime
                     && ReadFile(text, f.bytes).Ok? && ReadFile(text, f.bytes) != ReadFile(text, g.bytes);
      EqualStampsGoStale(text, p, f, g, false);
    }
  }

  // ---------- what errors evict ----------

  predicate AsksFor(e: Event, path: string) {
    e.Ask? && e.path == path
  }

  /** Every lookup of this path along a run fails. */
  ghost predicate AllFail(text: seq<byte> -> string, w: World, path: string, events: seq<Event>) {
    forall n | 0 <= n < |events| && AsksFor(events[n], path) ::
      var now := RunFrom(text, w, events[..n]); Lookup(text, now.cache, now.files, path, events[n].draft).0.Err?
  }

  /** At some lookup along a run the path is missing. */
  ghost predicate MissedOnce(text: seq<byte> -> string, w: World, path: string, events: seq<Event>) {
    exists n | 0 <= n < |events| && AsksFor(events[n], path) :: path !in RunFrom(text, w, events[..n]).files
  }

  /**
    The documentation says that errors evict any stale entry. Over any further run in which the path is only looked up
    in vain, its entry goes if and only if one of those lookups finds no file; a file that does not parse leaves it.
  */
  lemma {:induction false} ParseErrorKeepsEntry(text: seq<byte> -> string, w: World, path: string, events: seq<Event>)
    requires path in w.cache && AllFail(text, w, path, events)
    ensures var after := RunFrom(text, w, events).cache;
            && (path in after <==> !MissedOnce(text, w, path, events))
            && (path in after ==> after[path] == w.cache[path])
    decreases |events|
  {
    hide ReadFile, MissedOnce, AllFail;
    if events == [] {
      NothingAsked(text, w, path);
    } else {
      var n := |events| - 1;
      ShorterRun(text, w, path, events);
      ParseErrorKeepsEntry(text, w, path, events[..n]);
    }
  }

  lemma NothingAsked(text: seq<byte> -> string, w: World, path: string)
    ensures !MissedOnce(text, w, path, [])
  {
  }

  lemma ShorterRun(text: seq<byte> -> string, w: World, path: string, events: seq<Event>)
    requires events != [] && AllFail(text, w, path, events)
    ensures var n := |events| - 1;
            var now := RunFrom(text, w, events[..n]);
            && AllFail(text, w, path, events[..n])
            && (AsksFor(events[n], path) ==> Lookup(text, now.cache, now.files, path, events[n].draft).0.Err?)
            && (MissedOnce(text, w, path, events) <==>
                  MissedOnce(text, w, path, events[..n]) || (AsksFor(events[n], path) && path !in now.files))
  {
    hide RunFrom, Lookup, AsksFor;
    var n := |events| - 1;
    var most := events[..n];
    assert forall i | 0 <= i <= n :: most[..i] == events[..i];
    assert forall i | 0 <= i < n :: most[i] == events[i];
  }
}
