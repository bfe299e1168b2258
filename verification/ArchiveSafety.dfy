/** Which members of an update archive are taken: the check that runs over all of them before anything is extracted. */
module ArchiveSafety {
  import opened Wrappers

  /** A member: its name as stored in the archive, whether it is a symbolic link, and its bytes. */
  datatype Member = Member(name: string, symlink: bool, content: string)

  /** A directory or file by its parts from the root of the drive that the destination is on. */
  type Location = seq<string>

  /** Which characters separate the parts of a name, and, where there are drives, the letter of the destination's. */
  datatype System = System(separates: char -> bool, drive: Option<char>)

  /** The parts of a name; which characters separate them depends on the system. */
  function Parts(separates: char -> bool, name: string): (parts: seq<string>)
    ensures parts != []
  {
    if name == "" then [""]
    else
      var rest := Parts(separates, name[1..]);
      if separates(name[0]) then [""] + rest else [[name[0]] + rest[0]] + rest[1..]
  }

  /** Walking the parts from a place: the root has nothing above it. */
  function Resolve(at: Location, parts: seq<string>): Location
    decreases |parts|
  {
    if parts == [] then at
    else if parts[0] == "" || parts[0] == "." then Resolve(at, parts[1..])
    else if parts[0] == ".." then Resolve(if at == [] then [] else at[..|at| - 1], parts[1..])
    else Resolve(at + [parts[0]], parts[1..])
  }

  predicate IsSlash(c: char) {
    c == '/' || c == '\\'
  }

  predicate IsLetter(c: char) {
    'A' <= c <= 'Z' || 'a' <= c <= 'z'
  }

  predicate Absolute(name: string) {
    || (name != "" && IsSlash(name[0]))
    || (|name| >= 3 && IsLetter(name[0]) && name[1] == ':' && IsSlash(name[2]))
  }

  predicate OnDrive(sys: System, name: string) {
    sys.drive.Some? && |name| >= 2 && IsLetter(name[0]) && name[1] == ':'
  }

  function Lower(c: char): char {
    if 'A' <= c <= 'Z' then (c as int + 32) as char else c
  }

  /**
    Where a name leads from the destination, if that is on the destination's drive. A drive in front of a relative name
    is passed over when it is the destination's own, and leads away when it is not.
  */
  function Target(sys: System, dest: Location, name: string): Option<Location> {
    if !OnDrive(sys, name) then Some(Resolve(dest, Parts(sys.separates, name)))
    else if Lower(name[0]) == Lower(sys.drive.value) then Some(Resolve(dest, Parts(sys.separates, name[2..])))
    else None
  }

  predicate Safe(sys: System, dest: Location, m: Member) {
    && !m.symlink && !Absolute(m.name)
    && var target := Target(sys, dest, m.name); target.Some? && dest <= target.value
  }

  /** The first member that is refused, if any; only without one does the extraction begin. */
  method CheckMembers(sys: System, dest: Location, members: seq<Member>) returns (refused: Option<nat>)
    ensures refused.None? <==> forall m | m in members :: Safe(sys, dest, m)
    ensures refused.Some? ==>
              && refused.value < |members| && !Safe(sys, dest, members[refused.value])
              && forall i | 0 <= i < refused.value :: Safe(sys, dest, members[i])
  {
    for i := 0 to |members|
      invariant forall k | 0 <= k < i :: Safe(sys, dest, members[k])
    {
      var m := members[i];
      assert m in members;
      if m.symlink || Absolute(m.name) {
        return Some(i);
      }
      var target := Target(sys, dest, m.name);
      if target.None? || (target.value != dest && !(dest < target.value)) {
        return Some(i);
      }
    }
    return None;
  }

  // ---------- what the check means ----------

  /** A relative path with everything cancelled that cancels: so many levels up, then these names. */
  datatype Normal = Normal(up: nat, names: seq<string>)

  function Cancelled(so: Normal, parts: seq<string>): Normal
    decreases |parts|
  {
    if parts == [] then so
    else if parts[0] == "" || parts[0] == "." then Cancelled(so, parts[1..])
    else if parts[0] != ".." then Cancelled(Normal(so.up, so.names + [parts[0]]), parts[1..])
    else if so.names == [] then Cancelled(Normal(so.up + 1, []), parts[1..])
    else Cancelled(Normal(so.up, so.names[..|so.names| - 1]), parts[1..])
  }

  function Up(dest: Location, levels: nat): Location {
    if levels <= |dest| then dest[..|dest| - levels] else []
  }

  lemma {:induction false} ResolveCancelled(dest: Location, so: Normal, parts: seq<string>)
    ensures var n := Cancelled(so, parts);
            Resolve(Up(dest, so.up) + so.names, parts) == Up(dest, n.up) + n.names
    decreases |parts|
  {
    hide Cancelled, Resolve;
    CancelledStep(so, parts);
    ResolveStep(Up(dest, so.up) + so.names, parts);
    if parts != [] {
      var at, rest := Up(dest, so.up) + so.names, parts[1..];
      if parts[0] == "" || parts[0] == "." {
        ResolveCancelled(dest, so, rest);
      } else if parts[0] != ".." {
        assert at + [parts[0]] == Up(dest, so.up) + (so.names + [parts[0]]);
        ResolveCancelled(dest, Normal(so.up, so.names + [parts[0]]), rest);
      } else if so.names == [] {
        assert Up(dest, so.up + 1) + [] == if at == [] then [] else at[..|at| - 1];
        ResolveCancelled(dest, Normal(so.up + 1, []), rest);
      } else {
        var fewer := so.names[..|so.names| - 1];
        assert at[..|at| - 1] == Up(dest, so.up) + fewer;
        ResolveCancelled(dest, Normal(so.up, fewer), rest);
      }
    }
  }

  lemma CancelledStep(so: Normal, parts: seq<string>)
    ensures Cancelled(so, parts) ==
              if parts == [] then so
              else if parts[0] == "" || parts[0] == "." then Cancelled(so, parts[1..])
              else if parts[0] != ".." then Cancelled(Normal(so.up, so.names + [parts[0]]), parts[1..])
              else if so.names == [] then Cancelled(Normal(so.up + 1, []), parts[1..])
              else Cancelled(Normal(so.up, so.names[..|so.names| - 1]), parts[1..])
  {
  }

  lemma ResolveStep(at: Location, parts: seq<string>)
    ensures Resolve(at, parts) ==
              if parts == [] then at
              else if parts[0] == "" || parts[0] == "." then Resolve(at, parts[1..])
              else if parts[0] == ".." then Resolve(if at == [] then [] else at[..|at| - 1], parts[1..])
              else Resolve(at + [parts[0]], parts[1..])
  {
  }

  /** The part of a name behind the drive. */
  function Relative(sys: System, name: string): string {
    if OnDrive(sys, name) then name[2..] else name
  }

  /**
    A name leads into the destination exactly if it names no other drive and, with everything cancelled, it does not
    climb out, or climbs out and comes back down through the destination's own names.
  */
  lemma InsideExactly(sys: System, dest: Location, name: string)
    ensures var n := Cancelled(Normal(0, []), Parts(sys.separates, Relative(sys, name)));
            var target := Target(sys, dest, name);
            && (target.Some? && dest <= target.value <==>
                  (OnDrive(sys, name) ==> Lower(name[0]) == Lower(sys.drive.value))
                  && dest[|Up(dest, n.up)|..] <= n.names)
            && (target.Some? && n.up == 0 ==> target.value == dest + n.names)
  {
    hide Cancelled, Resolve, Parts;
    var parts := Parts(sys.separates, Relative(sys, name));
    var n := Cancelled(Normal(0, []), parts);
    assert Up(dest, 0) + [] == dest;
    ResolveCancelled(dest, Normal(0, []), parts);
    var top := Up(dest, n.up);
    assert dest == top + dest[|top|..];
    PrefixBehind(top, dest[|top|..], n.names);
  }

  lemma PrefixBehind(a: Location, b: Location, c: Location)
    ensures a + b <= a + c <==> b <= c
  {
    if a + b <= a + c {
      assert b == (a + b)[|a|..] && c == (a + c)[|a|..];
      assert forall i | 0 <= i < |b| :: b[i] == (a + b)[|a| + i] == (a + c)[|a| + i] == c[i];
    }
  }
}
