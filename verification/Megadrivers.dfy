/** bin/install_megadrivers.py: the symbolic links of the drivers, as a state machine over the library directory. */
module Megadrivers {
  import opened Paths

  /** What a link points at: a name in the same directory, or the megadriver in another one. */
  datatype Target = Sibling(name: string) | Elsewhere

  datatype Entry = File | Link(target: Target)

  type Directory = map<string, Entry>

  // ----- What one driver, and the whole list, do to the directory -----

  /** Point every one of the names at the driver, in order. */
  function LinkAll(d: Directory, names: seq<string>, driver: string): Directory
    decreases |names|
  {
    if names == [] then d else LinkAll(d[names[0] := Link(Sibling(driver))], names[1..], driver)
  }

  function InstallOne(d: Directory, driver: string, sfx: string, mega: Target): Directory {
    LinkAll(d[driver := Link(mega)], Visited(driver, sfx), driver)
  }

  /** The links after one driver after the other. */
  function InstallAll(d: Directory, drivers: seq<string>, sfx: string, mega: Target): Directory
    decreases |drivers|
  {
    if drivers == [] then d
    else InstallOne(InstallAll(d, drivers[..|drivers| - 1], sfx, mega), drivers[|drivers| - 1], sfx, mega)
  }

  predicate AllFound(drivers: seq<string>, sfx: string) {
    forall i :: 0 <= i < |drivers| ==> Found(drivers[i], sfx)
  }

  /** The drivers up to and including the first one that does not contain the suffix, where the script exits. */
  function Attempted(drivers: seq<string>, sfx: string): (a: seq<string>)
    ensures a <= drivers
    ensures a == drivers || (|a| > 0 && !Found(a[|a| - 1], sfx))
    ensures forall i :: 0 <= i < |a| - 1 ==> Found(a[i], sfx)
    decreases |drivers|
  {
    if drivers == [] then []
    else if Found(drivers[0], sfx) then [drivers[0]] + Attempted(drivers[1..], sfx)
    else drivers[..1]
  }

  /** The driver and the version prefixes linked to it. */
  function Names(driver: string, sfx: string): set<string> {
    {driver} + set n | n in Visited(driver, sfx)
  }

  function Managed(drivers: seq<string>, sfx: string): set<string>
    decreases |drivers|
  {
    if drivers == [] then {} else Managed(drivers[..|drivers| - 1], sfx) + Names(drivers[|drivers| - 1], sfx)
  }

  // ----- Exactly which links there are in the end -----

  lemma {:induction false} LinkAllEntries(d: Directory, names: seq<string>, driver: string)
    ensures LinkAll(d, names, driver).Keys == d.Keys + set n | n in names
    ensures forall n :: n in names ==> LinkAll(d, names, driver)[n] == Link(Sibling(driver))
    ensures forall n :: n in d && n !in names ==> LinkAll(d, names, driver)[n] == d[n]
    decreases |names|
  {
    if names != [] {
      LinkAllEntries(d[names[0] := Link(Sibling(driver))], names[1..], driver);
      assert names == [names[0]] + names[1..];
    }
  }

  lemma InstallOneEntries(d: Directory, driver: string, sfx: string, mega: Target)
    requires |sfx| > 0
    ensures var d' := InstallOne(d, driver, sfx, mega);
            && d'.Keys == d.Keys + Names(driver, sfx)
            && d'[driver] == Link(mega)
            && (forall n :: n in Visited(driver, sfx) ==> d'[n] == Link(Sibling(driver)))
            && (forall n :: n in d && n !in Names(driver, sfx) ==> d'[n] == d[n])
  {
    LinkAllEntries(d[driver := Link(mega)], Visited(driver, sfx), driver);
    if driver in Visited(driver, sfx) {
      VisitedIsPrefix(driver, sfx, driver);
    }
  }

  /** What the last driver that manages n made of it; the initial entry if none does. */
  function LastWrite(d: Directory, drivers: seq<string>, sfx: string, mega: Target, n: string): (r: Entry)
    requires n in Managed(drivers, sfx) || n in d
    decreases |drivers|
  {
    if drivers == [] then d[n]
    else
      var last := drivers[|drivers| - 1];
      if n == last then Link(mega)
      else if n in Names(last, sfx) then Link(Sibling(last))
      else LastWrite(d, drivers[..|drivers| - 1], sfx, mega, n)
  }

  /** The later driver wins: every entry is what its last writer made of it, and unmanaged names are untouched. */
  lemma {:induction false} InstallAllEntries(d: Directory, drivers: seq<string>, sfx: string, mega: Target)
    requires |sfx| > 0
    ensures InstallAll(d, drivers, sfx, mega).Keys == d.Keys + Managed(drivers, sfx)
    ensures forall n :: n in InstallAll(d, drivers, sfx, mega) ==>
              InstallAll(d, drivers, sfx, mega)[n] == LastWrite(d, drivers, sfx, mega, n)
    decreases |drivers|
  {
    if drivers != [] {
      var front, last := drivers[..|drivers| - 1], drivers[|drivers| - 1];
      InstallAllEntries(d, front, sfx, mega);
      InstallOneEntries(InstallAll(d, front, sfx, mega), last, sfx, mega);
      forall n | n in InstallAll(d, drivers, sfx, mega)
        ensures InstallAll(d, drivers, sfx, mega)[n] == LastWrite(d, drivers, sfx, mega, n)
      {
        if n !in Names(last, sfx) {
          assert n in InstallAll(d, front, sfx, mega);
        }
      }
    }
  }

  // ----- Every managed name leads to the megadriver -----

  /** Each of the names links to the megadriver or to a strictly longer one of the names. */
  ghost predicate Linked(d: Directory, names: set<string>, mega: Target) {
    forall n :: n in names ==>
      && n in d && d[n].Link?
      && (d[n].target == mega || (d[n].target.Sibling? && n < d[n].target.name && d[n].target.name in names))
  }

  /** Kept by every iteration, also when it overwrites links made for earlier drivers. */
  lemma InstallOneKeepsLinked(d: Directory, names: set<string>, driver: string, sfx: string, mega: Target)
    requires |sfx| > 0 && Linked(d, names, mega)
    ensures Linked(InstallOne(d, driver, sfx, mega), names + Names(driver, sfx), mega)
  {
    InstallOneEntries(d, driver, sfx, mega);
    forall n | n in Visited(driver, sfx)
      ensures n < driver
    {
      VisitedIsPrefix(driver, sfx, n);
    }
  }

  lemma {:induction false} InstallAllLinked(d: Directory, drivers: seq<string>, sfx: string, mega: Target)
    requires |sfx| > 0
    ensures Linked(InstallAll(d, drivers, sfx, mega), Managed(drivers, sfx), mega)
    decreases |drivers|
  {
    if drivers != [] {
      var front, last := drivers[..|drivers| - 1], drivers[|drivers| - 1];
      InstallAllLinked(d, front, sfx, mega);
      InstallOneKeepsLinked(InstallAll(d, front, sfx, mega), Managed(front, sfx), last, sfx, mega);
    }
  }

  /** Following at most `steps` further links from n arrives at the megadriver. */
  predicate Reaches(d: Directory, n: string, mega: Target, steps: nat)
    decreases steps
  {
    && n in d && d[n].Link?
    && (d[n].target == mega ||
        (steps > 0 && d[n].target.Sibling? && Reaches(d, d[n].target.name, mega, steps - 1)))
  }

  lemma {:induction false} LinkedReaches(d: Directory, names: set<string>, mega: Target, n: string, longest: nat)
    requires Linked(d, names, mega) && n in names
    requires forall m :: m in names ==> |m| <= longest
    ensures Reaches(d, n, mega, longest - |n|)
    decreases longest - |n|
  {
    if d[n].target != mega {
      LinkedReaches(d, names, mega, d[n].target.name, longest);
      ReachesFurther(d, d[n].target.name, mega, longest - |d[n].target.name|, longest - |n| - 1);
    }
  }

  lemma {:induction false} ReachesFurther(d: Directory, n: string, mega: Target, i: nat, j: nat)
    requires i <= j && Reaches(d, n, mega, i)
    ensures Reaches(d, n, mega, j)
    decreases i
  {
    if d[n].target != mega {
      ReachesFurther(d, d[n].target.name, mega, i - 1, j - 1);
    }
  }

  lemma {:induction false} LongestExists(names: set<string>) returns (longest: nat)
    ensures forall m :: m in names ==> |m| <= longest
    decreases |names|
  {
    longest := 0;
    if names != {} {
      var m :| m in names;
      var rest := LongestExists(names - {m});
      longest := if rest < |m| then |m| else rest;
    }
  }

  // ----- The whole run -----

  /** The version prefixes of the megadriver's own name, which the script removes last. */
  function Cleaned(base: string, sfx: string): set<string> {
    set n | n in Visited(base, sfx)
  }

  /** Exactly the prefixes of the megadriver's name that end before a dot lying after its last matching component. */
  lemma CleanedAre(base: string, sfx: string, name: string)
    requires |sfx| > 0
    ensures name in Cleaned(base, sfx) <==> exists k :: StopAt(base, k, sfx) && name == base[..k]
  {
    VisitedAre(base, sfx, name);
  }

  /** The megadriver is still where links to it point. */
  predicate MegadriverIntact(d: Directory, mega: Target) {
    mega.Sibling? ==> mega.name in d && d[mega.name] == File
  }

  /** A finished run: all drivers linked, then the megadriver's version prefixes removed. */
  function Installed(d: Directory, drivers: seq<string>, sfx: string, mega: Target, base: string): Directory {
    InstallAll(d, drivers, sfx, mega) - Cleaned(base, sfx)
  }

  /** Every entry of the final directory: the last writer's, or an old one, unless the clean-up removes the name. */
  lemma InstalledEntries(d: Directory, drivers: seq<string>, sfx: string, mega: Target, base: string, n: string)
    requires |sfx| > 0
    ensures var final := Installed(d, drivers, sfx, mega, base);
            && (n in final <==> (n in d || n in Managed(drivers, sfx))
                                && !exists k :: StopAt(base, k, sfx) && n == base[..k])
            && (n in final ==> final[n] == LastWrite(d, drivers, sfx, mega, n))
            && (n in final && n !in Managed(drivers, sfx) ==> final[n] == d[n])
  {
    InstallAllEntries(d, drivers, sfx, mega);
    CleanedAre(base, sfx, n);
    if n in d && n !in Managed(drivers, sfx) {
      UnmanagedUntouched(d, drivers, sfx, mega, n);
    }
  }

  /** The name resolves, through finitely many links, to a megadriver that is there. */
  ghost predicate Serves(d: Directory, n: string, mega: Target) {
    MegadriverIntact(d, mega) && exists steps: nat :: Reaches(d, n, mega, steps)
  }

  /** Nothing the script manages is the megadriver itself or one of the names it cleans up. */
  predicate Disjoint(drivers: seq<string>, sfx: string, mega: Target, base: string) {
    Managed(drivers, sfx) !! Cleaned(base, sfx) && (mega.Sibling? ==> mega.name !in Managed(drivers, sfx))
  }

  /** Cleaning up removes strict prefixes of the megadriver's name, never the megadriver. */
  lemma CleanUpKeepsMegadriver(d: Directory, sfx: string, base: string)
    requires |sfx| > 0
    ensures base !in Cleaned(base, sfx)
    ensures base in d ==> base in d - Cleaned(base, sfx) && (d - Cleaned(base, sfx))[base] == d[base]
  {
    if base in Cleaned(base, sfx) {
      VisitedIsPrefix(base, sfx, base);
    }
  }

  /**
   After a finished run every managed name leads to the megadriver, whatever the order of the drivers and whichever
   links overwrote which, exactly when the managed names avoid the megadriver's own name and version prefixes.
   */
  lemma AllServeIffDisjoint(d: Directory, drivers: seq<string>, sfx: string, mega: Target, base: string)
    requires |sfx| > 0 && MegadriverIntact(d, mega) && (mega.Sibling? ==> mega.name == base)
    ensures (forall n :: n in Managed(drivers, sfx) ==> Serves(Installed(d, drivers, sfx, mega, base), n, mega))
            <==> Disjoint(drivers, sfx, mega, base)
  {
    var names, final := Managed(drivers, sfx), Installed(d, drivers, sfx, mega, base);
    InstallAllEntries(d, drivers, sfx, mega);
    InstallAllLinked(d, drivers, sfx, mega);
    CleanUpKeepsMegadriver(InstallAll(d, drivers, sfx, mega), sfx, base);
    if Disjoint(drivers, sfx, mega, base) {
      if mega.Sibling? {
        UnmanagedUntouched(d, drivers, sfx, mega, base);
      }
      assert Linked(final, names, mega);
      var longest := LongestExists(names);
      forall n | n in names
        ensures Serves(final, n, mega)
      {
        LinkedReaches(final, names, mega, n, longest);
      }
    } else if names !! Cleaned(base, sfx) {
      assert final[base].Link?;
      assert !Serves(final, base, mega);
    } else {
      var n :| n in names && n in Cleaned(base, sfx);
      assert !Serves(final, n, mega);
    }
  }

  lemma {:induction false} UnmanagedUntouched(d: Directory, drivers: seq<string>, sfx: string, mega: Target, n: string)
    requires |sfx| > 0 && n in d && n !in Managed(drivers, sfx)
    ensures n in InstallAll(d, drivers, sfx, mega) && InstallAll(d, drivers, sfx, mega)[n] == d[n]
    decreases |drivers|
  {
    if drivers != [] {
      var front := drivers[..|drivers| - 1];
      UnmanagedUntouched(d, front, sfx, mega, n);
      InstallOneEntries(InstallAll(d, front, sfx, mega), drivers[|drivers| - 1], sfx, mega);
    }
  }

  /** What the last writer made of a managed name does not depend on what was there before. */
  lemma {:induction false} LastWriteForgets(d: Directory, c: Directory, drivers: seq<string>, sfx: string, mega: Target,
                                            n: string)
    requires n in Managed(drivers, sfx)
    ensures LastWrite(d, drivers, sfx, mega, n) == LastWrite(c, drivers, sfx, mega, n)
    decreases |drivers|
  {
    if drivers != [] && n !in Names(drivers[|drivers| - 1], sfx) {
      LastWriteForgets(d, c, drivers[..|drivers| - 1], sfx, mega, n);
    }
  }

  /** Installing again changes nothing. */
  lemma ReinstallIsIdempotent(d: Directory, drivers: seq<string>, sfx: string, mega: Target, base: string)
    requires |sfx| > 0
    ensures var once := Installed(d, drivers, sfx, mega, base);
            Installed(once, drivers, sfx, mega, base) == once
  {
    var once := Installed(d, drivers, sfx, mega, base);
    var twice := Installed(once, drivers, sfx, mega, base);
    InstallAllEntries(d, drivers, sfx, mega);
    InstallAllEntries(once, drivers, sfx, mega);
    forall n | n in once
      ensures n in twice && twice[n] == once[n]
    {
      if n in Managed(drivers, sfx) {
        LastWriteForgets(d, once, drivers, sfx, mega, n);
      } else {
        UnmanagedUntouched(once, drivers, sfx, mega, n);
      }
    }
  }

  // ----- The script -----

  datatype Outcome = Done | AssertionError | ExitAtDriver(driver: string) | ExitAtMegadriver

  predicate PartAt(s: string, part: string, i: int) {
    0 <= i <= |s| - |part| && s[i..i + |part|] == part
  }

  predicate Contains(s: string, part: string) {
    exists i :: 0 <= i <= |s| && PartAt(s, part, i)
  }

  /** Python's `part in s`: s is something, then part, then something. */
  lemma ContainsIff(s: string, part: string)
    ensures Contains(s, part) <==> exists a: string, b: string :: s == a + part + b
  {
    if Contains(s, part) {
      var i :| 0 <= i <= |s| && PartAt(s, part, i);
      assert s == s[..i] + part + s[i + |part|..];
    }
    if exists a: string, b: string :: s == a + part + b {
      var a: string, b: string :| s == a + part + b;
      assert s[|a|..|a| + |part|] == part;
      assert PartAt(s, part, |a|);
    }
  }

  /** What is left to visit once a name has been split into this root and extension. */
  function Pending(root: string, ext: string, sfx: string): seq<string> {
    if ext == sfx || ext == "" then [] else [root] + Visited(root, sfx)
  }

  predicate WillBeFound(root: string, ext: string, sfx: string) {
    ext == sfx || (ext != "" && Found(root, sfx))
  }

  lemma SplitStep(name: string, sfx: string)
    ensures Visited(name, sfx) == Pending(SplitExt(name).0, SplitExt(name).1, sfx)
    ensures Found(name, sfx) == WillBeFound(SplitExt(name).0, SplitExt(name).1, sfx)
  {
  }

  lemma LinkStep(d: Directory, root: string, ext: string, sfx: string, driver: string)
    requires ext != sfx && ext != ""
    ensures LinkAll(d, Pending(root, ext, sfx), driver)
         == LinkAll(d[root := Link(Sibling(driver))], Visited(root, sfx), driver)
  {
    assert ([root] + Visited(root, sfx))[1..] == Visited(root, sfx);
  }

  lemma LinkEnd(d: Directory, root: string, ext: string, sfx: string, driver: string)
    requires ext == sfx || ext == ""
    ensures LinkAll(d, Pending(root, ext, sfx), driver) == d
  {
  }

  lemma CleanStep(d: Directory, root: string, ext: string, sfx: string)
    requires ext != sfx && ext != ""
    ensures d - (set n | n in Pending(root, ext, sfx)) == d - {root} - (set n | n in Visited(root, sfx))
  {
  }

  lemma CleanEnd(d: Directory, root: string, ext: string, sfx: string)
    requires ext == sfx || ext == ""
    ensures d - (set n | n in Pending(root, ext, sfx)) == d
  {
  }

  /** The library directory the script works in. */
  class LibDir {
    var entries: Directory

    constructor (initial: Directory)
      ensures entries == initial
    {
      entries := initial;
    }

    /** os.unlink, which raises for a missing name. */
    method Unlink(name: string)
      requires name in entries
      modifies this
      ensures entries == old(entries) - {name}
    {
      entries := entries - {name};
    }

    /** os.symlink, which raises for an existing name. */
    method Symlink(target: Target, name: string)
      requires name !in entries
      modifies this
      ensures entries == old(entries)[name := Link(target)]
    {
      entries := entries[name := Link(target)];
    }

    method InstallDriver(driver: string, sfx: string, mega: Target) returns (ok: bool)
      requires |sfx| > 0
      modifies this
      ensures entries == InstallOne(old(entries), driver, sfx, mega)
      ensures ok == Found(driver, sfx)
    {
      hide LinkAll, Visited, Found, SplitExt, Pending;
      if driver in entries {
        Unlink(driver);
      }
      Symlink(mega, driver);
      assert entries == old(entries)[driver := Link(mega)];
      var (name, ext) := SplitExt(driver);
      SplitStep(driver, sfx);
      while ext != sfx
        invariant LinkAll(entries, Pending(name, ext, sfx), driver) == InstallOne(old(entries), driver, sfx, mega)
        invariant Found(driver, sfx) == WillBeFound(name, ext, sfx)
        decreases |name| + |ext|
      {
        if ext == "" {
          LinkEnd(entries, name, ext, sfx, driver);
          return false;
        }
        LinkStep(entries, name, ext, sfx, driver);
        SplitStep(name, sfx);
        ghost var before := entries;
        if name in entries {
          Unlink(name);
        }
        Symlink(Sibling(driver), name);
        assert entries == before[name := Link(Sibling(driver))];
        var (root, ext') := SplitExt(name);
        name, ext := root, ext';
      }
      LinkEnd(entries, name, ext, sfx, driver);
      ok := true;
    }

    /** The loop over the drivers; an exit leaves the links made so far, the failing driver's included. */
    method InstallDrivers(drivers: seq<string>, sfx: string, mega: Target) returns (outcome: Outcome)
      requires |sfx| > 0
      modifies this
      ensures entries == InstallAll(old(entries), Attempted(drivers, sfx), sfx, mega)
      ensures outcome == Done <==> forall i :: 0 <= i < |drivers| ==> Found(drivers[i], sfx)
      ensures outcome != Done ==>
                && Attempted(drivers, sfx) != []
                && outcome == ExitAtDriver(Attempted(drivers, sfx)[|Attempted(drivers, sfx)| - 1])
    {
      hide InstallOne, Found, Attempted;
      for i := 0 to |drivers|
        invariant entries == InstallAll(old(entries), drivers[..i], sfx, mega)
        invariant AllFound(drivers[..i], sfx)
      {
        var ok := InstallDriver(drivers[i], sfx, mega);
        assert drivers[..i + 1][..i] == drivers[..i];
        if !ok {
          AttemptedIs(drivers, sfx, i);
          return ExitAtDriver(drivers[i]);
        }
      }
      assert drivers[..|drivers|] == drivers;
      AllAttempted(drivers, sfx);
      outcome := Done;
    }

    /** Remove the links that the build system made next to the megadriver: `prefix` is the directory with its slash. */
    method CleanUp(prefix: string, base: string, sfx: string) returns (outcome: Outcome)
      requires |sfx| > 0 && RFind(base, '/') == -1 && (prefix == "" || prefix[|prefix| - 1] == '/')
      modifies this
      ensures entries == old(entries) - Cleaned(base, sfx)
      ensures outcome == if Found(base, sfx) then Done else ExitAtMegadriver
    {
      hide Visited, Found, SplitExt, Pending, RFind;
      var (name, ext) := SplitExt(prefix + base);
      SplitExtBelow(prefix, base);
      SplitStep(base, sfx);
      ghost var short := SplitExt(base).0;
      while ext != sfx
        invariant name == prefix + short && RFind(short, '/') == -1
        invariant entries - (set n | n in Pending(short, ext, sfx)) == old(entries) - Cleaned(base, sfx)
        invariant Found(base, sfx) == WillBeFound(short, ext, sfx)
        decreases |name| + |ext|
      {
        if ext == "" {
          CleanEnd(entries, short, ext, sfx);
          return ExitAtMegadriver;
        }
        SplitExtBelow(prefix, short);
        SplitStep(short, sfx);
        CleanStep(entries, short, ext, sfx);
        ghost var before := entries;
        if name[|prefix|..] in entries {
          Unlink(name[|prefix|..]);
        }
        assert entries == before - {short};
        var (root, ext') := SplitExt(name);
        short := SplitExt(short).0;
        name, ext := root, ext';
      }
      CleanEnd(entries, short, ext, sfx);
      outcome := Done;
    }

    /** main, once the directories are resolved: `sameDir` says that the megadriver is installed next to its links. */
    method Run(to: string, megadriver: string, sameDir: bool, drivers: seq<string>, suffix: string)
      returns (outcome: Outcome)
      modifies this
      ensures var sfx, base := "." + suffix, Basename(megadriver);
              var mega := if sameDir then Sibling(base) else Elsewhere;
              if !Contains(megadriver, sfx) then
                outcome == AssertionError && entries == old(entries)
              else if exists i :: 0 <= i < |drivers| && !Found(drivers[i], sfx) then
                && entries == InstallAll(old(entries), Attempted(drivers, sfx), sfx, mega)
                && Attempted(drivers, sfx) != []
                && outcome == ExitAtDriver(Attempted(drivers, sfx)[|Attempted(drivers, sfx)| - 1])
              else
                && entries == Installed(old(entries), drivers, sfx, mega, base)
                && outcome == if Found(base, sfx) then Done else ExitAtMegadriver
    {
      hide Contains, InstallAll, Attempted, Found, Cleaned, Basename;
      var sfx := "." + suffix;
      if !Contains(megadriver, sfx) {
        return AssertionError;
      }
      var base := Basename(megadriver);
      outcome := InstallDrivers(drivers, sfx, if sameDir then Sibling(base) else Elsewhere);
      if outcome == Done {
        AllAttempted(drivers, sfx);
        outcome := CleanUp(if to == "" || to[|to| - 1] == '/' then to else to + "/", base, sfx);
      }
    }
  }

  lemma {:induction false} AttemptedIs(drivers: seq<string>, sfx: string, i: nat)
    requires i < |drivers| && AllFound(drivers[..i], sfx) && !Found(drivers[i], sfx)
    ensures Attempted(drivers, sfx) == drivers[..i + 1] && !AllFound(drivers, sfx)
    decreases |drivers|
  {
    if i > 0 {
      assert drivers[0] == drivers[..i][0];
      assert drivers[1..][..i - 1] == drivers[..i][1..];
      AttemptedIs(drivers[1..], sfx, i - 1);
      assert [drivers[0]] + drivers[1..][..i] == drivers[..i + 1];
    }
  }

  lemma AllAttempted(drivers: seq<string>, sfx: string)
    requires AllFound(drivers, sfx)
    ensures Attempted(drivers, sfx) == drivers
  {
  }

  /** The assertion on the megadriver's name is not enough: the clean-up can still exit, after removing links. */
  lemma AssertionDoesNotSuffice()
    ensures Contains("lib.sox", ".so") && !Found(Basename("lib.sox"), ".so")
    ensures Cleaned(Basename("lib.sox"), ".so") == {"lib"}
  {
    var p := "lib.sox";
    assert PartAt(p, ".so", 3);
    RFindIs(p, '/', -1);
    assert p[0..] == p;
    assert Basename(p) == p;
    RFindIs(p, '.', 3);
    assert p[0] != '.';
    assert DotAt(p, 3);
    assert p[..3] == "lib" && p[3..] == ".sox";
    RFindIs("lib", '.', -1);
    assert Visited("lib", ".so") == [];
    assert Visited(p, ".so") == ["lib"];
  }
}
