/**
  The updater: when it touches the installation at all, and what the files look like wherever it is stopped.
  A file goes to a temporary neighbour first and replaces the old one in a single step.
*/
module Updater {
  import opened Wrappers
  import ArchiveSafety

  /** A file below the installation directory, by its parts. */
  type Path = p: seq<string> | p != [] witness [""]

  type Tree = map<Path, string>

  datatype File = File(path: Path, content: string)

  function Name(p: Path): string {
    p[|p| - 1]
  }

  function TempOf(p: Path): Path {
    p[..|p| - 1] + [Name(p) + ".updating"]
  }

  predicate EndsWith(s: string, end: string) {
    |end| <= |s| && s[|s| - |end|..] == end
  }

  /** Models, the configuration and the logs, which an update leaves alone. */
  predicate Protected(p: Path) {
    var name := Name(p);
    || EndsWith(name, ".gguf") || EndsWith(name, ".onnx")
    || name == "config.json" || name == "server_log.txt"
    || name == "app_debug.log" || "app_debug.log." <= name
  }

  /** Where the copy of one file stops: not at all, or by an error or the end of the process at one of its steps. */
  datatype Stop =
    | Never
    | AtUnlink
    | DuringCopy(partial: string, cleanedUp: bool)
    | BeforeReplace

  function Installed(t: Tree, f: File): Tree {
    (t - {TempOf(f.path)})[f.path := f.content]
  }

  /** The tree after all these files. */
  function Install(t: Tree, files: seq<File>): Tree {
    if files == [] then t
    else
      var n := |files| - 1;
      var before := Install(t, files[..n]);
      if Protected(files[n].path) then before else Installed(before, files[n])
  }

  /** The same files, except perhaps a temporary one. */
  predicate UpToTemp(a: Tree, b: Tree, p: Path) {
    a - {TempOf(p)} == b - {TempOf(p)}
  }

  datatype Gate = Gate(
    remote: seq<nat>, local: seq<nat>,          // the two versions
    sums: Option<seq<(string, string)>>,        // the checksum lines: digest and file name
    asset: string, digest: string,              // the downloaded file and its digest
    allowUnsigned: bool,
    system: ArchiveSafety.System, staging: ArchiveSafety.Location, members: seq<ArchiveSafety.Member>, // the archive
    placed: string -> Option<Path>,             // where the library puts a member below the staging directory
    children: seq<string>,                      // the entries of that directory, in the order they are listed in
    order: seq<string> -> seq<Path>)            // all files below a part of it, likewise

  predicate MembersSafe(g: Gate) {
    forall m | m in g.members :: ArchiveSafety.Safe(g.system, g.staging, m)
  }

  /** The files that extracting these members leaves; directories leave none, and a later member replaces an earlier. */
  function Staged(placed: string -> Option<Path>, members: seq<ArchiveSafety.Member>): Tree {
    if members == [] then map[]
    else
      var m := members[|members| - 1];
      var before := Staged(placed, members[..|members| - 1]);
      match placed(m.name)
      case None => before
      case Some(p) => before[p := m.content]
  }

  /** Where the program is: in the first listed directory that holds it, or at the top. */
  function ProgramDir(staged: Tree, children: seq<string>): Option<seq<string>> {
    if children == [] then if ["Stet.exe"] in staged then Some([]) else None
    else if [children[0], "Stet.exe"] in staged then Some([children[0]])
    else ProgramDir(staged, children[1..])
  }

  /** A listing of the files below a directory names each of them once and nothing else. */
  ghost predicate Lists(staged: Tree, dir: seq<string>, order: seq<Path>) {
    && (forall i, j | 0 <= i < j < |order| :: order[i] != order[j])
    && (forall p: Path :: p in order <==> dir + p in staged)
  }

  function FilesOf(staged: Tree, dir: seq<string>, order: seq<Path>): (files: seq<File>)
    requires forall p | p in order :: dir + p in staged
    ensures |files| == |order| && forall i | 0 <= i < |files| :: files[i] == File(order[i], staged[dir + order[i]])
  {
    seq(|order|, i requires 0 <= i < |order| => File(order[i], staged[dir + order[i]]))
  }

  function Listed(g: Gate): (files: seq<File>)
    requires var dir := ProgramDir(Staged(g.placed, g.members), g.children);
             dir.Some? ==> forall p | p in g.order(dir.value) :: dir.value + p in Staged(g.placed, g.members)
  {
    var staged := Staged(g.placed, g.members);
    var dir := ProgramDir(staged, g.children);
    if dir.None? then [] else FilesOf(staged, dir.value, g.order(dir.value))
  }

  ghost predicate HonestListing(g: Gate) {
    var staged := Staged(g.placed, g.members);
    var dir := ProgramDir(staged, g.children);
    dir.Some? ==> Lists(staged, dir.value, g.order(dir.value))
  }

  /** Whether an update gets as far as touching the installation. */
  predicate GoesAhead(g: Gate) {
    && Newer(g.remote, g.local)
    && (Check(g) == Verified || (Check(g) == Unverifiable && g.allowUnsigned))
    && MembersSafe(g) && ProgramDir(Staged(g.placed, g.members), g.children).Some?
  }

  /** The order of version tuples. */
  predicate Newer(a: seq<nat>, b: seq<nat>) {
    if a == [] then false
    else if b == [] then true
    else a[0] > b[0] || (a[0] == b[0] && Newer(a[1..], b[1..]))
  }

  function WithoutStars(name: string): string {
    if name != "" && name[0] == '*' then WithoutStars(name[1..]) else name
  }

  predicate IsDigest(s: string) {
    |s| == 64 && forall c | c in s :: '0' <= c <= '9' || 'a' <= c <= 'f' || 'A' <= c <= 'F'
  }

  function Lower(s: string): string {
    if s == "" then "" else [if 'A' <= s[0] <= 'Z' then (s[0] as int + 32) as char else s[0]] + Lower(s[1..])
  }

  /** The digest on the first line for this file. */
  function Expected(lines: seq<(string, string)>, asset: string): Option<string> {
    if lines == [] then None
    else if WithoutStars(lines[0].1) == asset then Some(lines[0].0)
    else Expected(lines[1..], asset)
  }

  datatype Verdict = Verified | Unverifiable | Mismatch

  function Check(g: Gate): Verdict {
    var expected := if g.sums.None? then None else Expected(g.sums.value, g.asset);
    if expected.None? || !IsDigest(expected.value) then Unverifiable
    else if Lower(g.digest) == Lower(expected.value) then Verified
    else Mismatch
  }

  datatype Outcome = AlreadyLatest | Rejected | HashMismatch | Stopped(done: nat) | Updated

  class Installer {
    var tree: Tree

    constructor (tree: Tree)
      ensures this.tree == tree
    {
      this.tree := tree;
    }

    method CopyFileAtomic(f: File, stop: Stop) returns (done: bool)
      modifies this
      ensures done == stop.Never?
      ensures if done then tree == Installed(old(tree), f) else UpToTemp(tree, old(tree), f.path)
    {
      var temp := TempOf(f.path);
      if stop.AtUnlink? {
        return false;
      }
      if temp in tree {
        tree := tree - {temp};
      }
      if stop.DuringCopy? {
        tree := tree[temp := stop.partial];
        if stop.cleanedUp {
          tree := tree - {temp};
        }
        return false;
      }
      tree := tree[temp := f.content];
      if stop.BeforeReplace? {
        return false;
      }
      var content := tree[temp];
      TempIsOther(f.path);
      tree := (tree - {temp})[f.path := content];
      return true;
    }

    /** Copy every file that is not protected, until one copy stops. */
    method Apply(files: seq<File>, stop: nat -> Stop) returns (done: nat)
      modifies this
      ensures done <= |files|
      ensures forall i | 0 <= i < done :: Protected(files[i].path) || stop(i).Never?
      ensures done == |files| ==> tree == Install(old(tree), files)
      ensures done < |files| ==> !Protected(files[done].path) && !stop(done).Never?
      ensures done < |files| ==> UpToTemp(tree, Install(old(tree), files[..done]), files[done].path)
    {
      hide Protected, UpToTemp, Installed;
      done := 0;
      while done < |files|
        invariant done <= |files|
        invariant forall i | 0 <= i < done :: Protected(files[i].path) || stop(i).Never?
        invariant tree == Install(old(tree), files[..done])
      {
        assert files[..done + 1][..done] == files[..done];
        if !Protected(files[done].path) {
          var copied := CopyFileAtomic(files[done], stop(done));
          if !copied {
            return;
          }
        }
        done := done + 1;
      }
      assert files[..done] == files;
    }

    /** The whole update after the download: the version, the digest, the archive and then the files. */
    method Update(g: Gate, stop: nat -> Stop) returns (o: Outcome)
      requires HonestListing(g)
      modifies this
      ensures o.AlreadyLatest? <==> !Newer(g.remote, g.local)
      ensures o.HashMismatch? <==> Newer(g.remote, g.local) && Check(g) == Mismatch
      ensures o.Stopped? || o.Updated? <==> GoesAhead(g)
      ensures o.Updated? ==> tree == Install(old(tree), Listed(g))
      ensures o.Stopped? ==>
                && o.done < |Listed(g)| && !Protected(Listed(g)[o.done].path)
                && UpToTemp(tree, Install(old(tree), Listed(g)[..o.done]), Listed(g)[o.done].path)
      ensures !o.Stopped? && !o.Updated? ==> tree == old(tree)
    {
      hide Newer, Protected, UpToTemp, Install, Expected, ProgramDir, Staged;
      if !Newer(g.remote, g.local) {
        return AlreadyLatest;
      }
      var expected: Option<string> := None;
      if g.sums.Some? {
        expected := FindDigest(g.sums.value, g.asset);
      }
      if expected.None? || !IsDigest(expected.value) {
        if !g.allowUnsigned {
          return Rejected;
        }
      } else if Lower(g.digest) != Lower(expected.value) {
        return HashMismatch;
      }
      var refused := ArchiveSafety.CheckMembers(g.system, g.staging, g.members);
      if refused.Some? {
        return Rejected;
      }
      var staged := Extract(g.placed, g.members);
      var dir := FindProgram(staged, g.children);
      if dir.None? {
        return Rejected;
      }
      var files := FilesOf(staged, dir.value, g.order(dir.value));
      var done := Apply(files, stop);
      return if done == |files| then Updated else Stopped(done);
    }
  }

  method Extract(placed: string -> Option<Path>, members: seq<ArchiveSafety.Member>) returns (staged: Tree)
    ensures staged == Staged(placed, members)
  {
    staged := map[];
    for i := 0 to |members|
      invariant staged == Staged(placed, members[..i])
    {
      assert members[..i + 1][..i] == members[..i];
      var p := placed(members[i].name);
      if p.Some? {
        staged := staged[p.value := members[i].content];
      }
    }
    assert members[..|members|] == members;
  }

  method FindProgram(staged: Tree, children: seq<string>) returns (dir: Option<seq<string>>)
    ensures dir == ProgramDir(staged, children)
  {
    for i := 0 to |children|
      invariant ProgramDir(staged, children) == ProgramDir(staged, children[i..])
    {
      assert children[i..][1..] == children[i + 1..];
      if [children[i], "Stet.exe"] in staged {
        return Some([children[i]]);
      }
    }
    return if ["Stet.exe"] in staged then Some([]) else None;
  }

  method FindDigest(lines: seq<(string, string)>, asset: string) returns (expected: Option<string>)
    ensures expected == Expected(lines, asset)
  {
    for i := 0 to |lines|
      invariant Expected(lines, asset) == Expected(lines[i..], asset)
    {
      if WithoutStars(lines[i].1) == asset {
        return Some(lines[i].0);
      }
      assert lines[i..][1..] == lines[i + 1..];
    }
    return None;
  }

  lemma TempIsOther(p: Path)
    ensures TempOf(p) != p
  {
    assert |Name(TempOf(p))| == |Name(p)| + |".updating"|;
  }

  // ---------- protected files ----------

  /** The temporary neighbour of a file that is updated is never a protected file. */
  lemma TempNeverProtected(p: Path)
    requires !Protected(p)
    ensures !Protected(TempOf(p))
  {
    var n := Name(p);
    var t := n + ".updating";
    assert Name(TempOf(p)) == t;
    assert t[|t| - 1] == 'g' && t[|t| - 3] == 'i';
    NotEnding(t, ".gguf", 1);
    NotEnding(t, ".onnx", 1);
    NotEnding(t, "config.json", 1);
    NotEnding(t, "server_log.txt", 1);
    NotEnding(t, "app_debug.log", 3);
    if "app_debug.log." <= t {
      LogPrefix(n);
    }
  }

  lemma NotEnding(t: string, end: string, k: nat)
    requires 0 < k <= |t| && k <= |end| && t[|t| - k] != end[|end| - k]
    ensures !EndsWith(t, end) && t != end
  {
    assert |end| <= |t| ==> t[|t| - |end|..][|end| - k] == t[|t| - k];
  }

  lemma NotNine(n: string)
    requires |n| == 9
    ensures !("app_debug.log." <= n + ".updating")
  {
    assert (n + ".updating")[10] == 'u';
  }

  lemma LogPrefix(n: string)
    requires "app_debug.log." <= n + ".updating"
    ensures n == "app_debug.log" || "app_debug.log." <= n
  {
    var log, t := "app_debug.log.", n + ".updating";
    if |n| >= 14 {
      assert n == t[..|n|];
    } else {
      assert log[|n|] == t[|n|] == '.';
      if |n| == 9 {
        NotNine(n);
      }
      assert |n| == 13;
      assert n == t[..13] == log[..13] == "app_debug.log";
    }
  }

  /** Protected files keep their bytes over any update, wherever it stops. */
  lemma {:induction false} ProtectedKept(t: Tree, files: seq<File>, p: Path)
    requires Protected(p)
    ensures p in Install(t, files) <==> p in t
    ensures p in t ==> Install(t, files)[p] == t[p]
  {
    if files != [] {
      var n := |files| - 1;
      ProtectedKept(t, files[..n], p);
      if !Protected(files[n].path) {
        TempNeverProtected(files[n].path);
      }
    }
  }

  lemma ProtectedKeptWhereStopped(t: Tree, files: seq<File>, done: nat, now: Tree, p: Path)
    requires Protected(p) && done < |files| && !Protected(files[done].path)
    requires UpToTemp(now, Install(t, files[..done]), files[done].path)
    ensures p in now <==> p in t
    ensures p in t ==> now[p] == t[p]
  {
    ProtectedKept(t, files[..done], p);
    TempNeverProtected(files[done].path);
    UpToTempAt(now, Install(t, files[..done]), files[done].path, p);
  }

  lemma UpToTempAt(a: Tree, b: Tree, p: Path, q: Path)
    requires UpToTemp(a, b, p) && q != TempOf(p)
    ensures q in a <==> q in b
    ensures q in a ==> a[q] == b[q]
  {
    assert q in a <==> q in a - {TempOf(p)};
    assert q in b <==> q in b - {TempOf(p)};
    assert q in a ==> a[q] == (a - {TempOf(p)})[q] == (b - {TempOf(p)})[q];
  }

  // ---------- old or new ----------

  predicate Replaces(f: File, p: Path) {
    !Protected(f.path) && f.path == p
  }

  /** The place of the last file that goes to a path, or -1. */
  function LastFor(files: seq<File>, p: Path): (i: int)
    ensures -1 <= i < |files|
    ensures i >= 0 ==> Replaces(files[i], p)
    ensures forall k | i < k < |files| :: !Replaces(files[k], p)
  {
    if files == [] then -1
    else
      var n := |files| - 1;
      if Replaces(files[n], p) then n else LastFor(files[..n], p)
  }

  predicate IsTemp(files: seq<File>, p: Path) {
    exists i | 0 <= i < |files| :: !Protected(files[i].path) && TempOf(files[i].path) == p
  }

  lemma TempOfFewer(files: seq<File>, n: nat, p: Path)
    requires n <= |files|
    ensures IsTemp(files[..n], p) ==> IsTemp(files, p)
  {
    assert forall i | 0 <= i < n :: files[..n][i] == files[i];
  }

  /** A path that is not a temporary neighbour holds its new bytes whole if it was reached, and its old ones if not. */
  lemma {:induction false} OldOrNew(t: Tree, files: seq<File>, p: Path)
    requires !IsTemp(files, p)
    ensures var i := LastFor(files, p);
            if i >= 0 then p in Install(t, files) && Install(t, files)[p] == files[i].content
            else (p in Install(t, files) <==> p in t) && (p in t ==> Install(t, files)[p] == t[p])
  {
    hide Protected;
    if files != [] {
      var n := |files| - 1;
      TempOfFewer(files, n, p);
      OldOrNew(t, files[..n], p);
      assert !Protected(files[n].path) ==> TempOf(files[n].path) != p;
    }
  }

  /** The same where an update was stopped in the middle of a file. */
  lemma OldOrNewWhereStopped(t: Tree, files: seq<File>, done: nat, now: Tree, p: Path)
    requires done < |files| && !Protected(files[done].path) && !IsTemp(files[..done + 1], p)
    requires UpToTemp(now, Install(t, files[..done]), files[done].path)
    ensures var i := LastFor(files[..done], p);
            if i >= 0 then p in now && now[p] == files[i].content
            else (p in now <==> p in t) && (p in t ==> now[p] == t[p])
  {
    hide Protected, Install, UpToTemp;
    assert files[..done + 1][done] == files[done] && files[..done + 1][..done] == files[..done];
    TempOfFewer(files[..done + 1], done, p);
    OldOrNew(t, files[..done], p);
    UpToTempAt(now, Install(t, files[..done]), files[done].path, p);
  }

  // ---------- the whole archive ----------

  /** Every extracted file holds the bytes of a member of the archive. */
  lemma {:induction false} StagedFromMembers(placed: string -> Option<Path>, members: seq<ArchiveSafety.Member>, p: Path)
    requires p in Staged(placed, members)
    ensures exists m :: m in members && placed(m.name) == Some(p) && m.content == Staged(placed, members)[p]
  {
    var n := |members| - 1;
    assert members == members[..n] + [members[n]];
    if placed(members[n].name) != Some(p) {
      StagedFromMembers(placed, members[..n], p);
      var m :| m in members[..n] && placed(m.name) == Some(p) && m.content == Staged(placed, members[..n])[p];
      assert m in members;
    }
  }

  /**
    Whatever an update leaves in a path other than a temporary one is what was there, or, whole, the bytes of a member
    of the archive that passed the check.
  */
  lemma OnlyOldOrChecked(t: Tree, g: Gate, p: Path)
    requires HonestListing(g) && GoesAhead(g) && !IsTemp(Listed(g), p)
    ensures var after := Install(t, Listed(g));
            if LastFor(Listed(g), p) >= 0 then
              && p in after
              && exists m :: m in g.members && ArchiveSafety.Safe(g.system, g.staging, m) && m.content == after[p]
            else (p in after <==> p in t) && (p in t ==> after[p] == t[p])
  {
    hide Protected, Install, IsTemp, Newer, Check, ProgramDir, Staged;
    OldOrNew(t, Listed(g), p);
    var i := LastFor(Listed(g), p);
    if i >= 0 {
      var dir := ProgramDir(Staged(g.placed, g.members), g.children).value;
      StagedFromMembers(g.placed, g.members, dir + g.order(dir)[i]);
    }
  }

  predicate DistinctPaths(files: seq<File>) {
    forall i, j | 0 <= i < j < |files| :: files[i].path != files[j].path
  }

  /** A later file takes away the file at place i, because that has the name of its temporary neighbour. */
  predicate TakenAway(files: seq<File>, i: nat)
    requires i < |files|
  {
    exists j | i < j < |files| :: !Protected(files[j].path) && TempOf(files[j].path) == files[i].path
  }

  /** After a full run a file of the archive is in place exactly if no later one takes it away again. */
  lemma {:induction false} InPlaceExactly(t: Tree, files: seq<File>, i: nat)
    requires DistinctPaths(files) && i < |files| && !Protected(files[i].path)
    ensures var after := Install(t, files);
            files[i].path in after && after[files[i].path] == files[i].content <==> !TakenAway(files, i)
    ensures TakenAway(files, i) ==> files[i].path !in Install(t, files)
  {
    hide Protected, TakenAway;
    var n := |files| - 1;
    TakenAwayStep(files, i);
    if i < n {
      InPlaceExactly(t, files[..n], i);
    }
  }

  lemma TakenAwayStep(files: seq<File>, i: nat)
    requires i < |files|
    ensures var n := |files| - 1;
            TakenAway(files, i) <==>
              i < n && (TakenAway(files[..n], i)
                        || (!Protected(files[n].path) && TempOf(files[n].path) == files[i].path))
  {
    hide Protected;
    var n := |files| - 1;
    assert forall j | 0 <= j < n :: files[..n][j] == files[j];
  }

  lemma PlainName()
    ensures !Protected(["a"])
  {
  }

  /** An archive that holds "a.updating" and then "a" loses the first. */
  lemma NeighbourIsLost(t: Tree, first: string, second: string)
    ensures var files := [File(["a.updating"], first), File(["a"], second)];
            ["a.updating"] !in Install(t, files)
  {
    hide Install, Protected;
    var files := [File(["a.updating"], first), File(["a"], second)];
    PlainName();
    assert "a" + ".updating" == "a.updating";
    assert TempOf(files[1].path) == [] + ["a" + ".updating"];
    TempNeverProtected(files[1].path);
    assert TakenAway(files, 0);
    InPlaceExactly(t, files, 0);
  }
}
