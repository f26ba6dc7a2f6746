/** os.path.splitext and os.path.basename on POSIX, and the names that repeated extension-stripping visits. */
module Paths {

  function RFind(s: string, c: char): (i: int)
    ensures -1 <= i < |s|
    ensures i >= 0 ==> s[i] == c
    ensures forall j :: i < j < |s| ==> s[j] != c
  {
    if s == [] then -1
    else if s[|s| - 1] == c then |s| - 1
    else RFind(s[..|s| - 1], c)
  }

  lemma RFindIs(s: string, c: char, i: int)
    requires -1 <= i < |s| && (i >= 0 ==> s[i] == c) && forall j :: i < j < |s| ==> s[j] != c
    ensures RFind(s, c) == i
  {
  }

  /** A dot of the last path component that does not belong to its leading dots. */
  predicate DotAt(p: string, i: int) {
    && 0 <= i < |p| && p[i] == '.'
    && RFind(p, '/') < i
    && exists j :: RFind(p, '/') < j < i && p[j] != '.'
  }

  /** (root, ext): ext is empty or starts with the last dot, leading dots of the file name not counting. */
  function SplitExt(p: string): (r: (string, string))
    ensures r.0 + r.1 == p
    ensures r.1 != "" ==> |r.0| < |p|
  {
    var dot := RFind(p, '.');
    if DotAt(p, dot) then (p[..dot], p[dot..]) else (p, "")
  }

  function Basename(p: string): (b: string)
    ensures RFind(b, '/') == -1
  {
    var b := p[RFind(p, '/') + 1..];
    RFindIs(b, '/', -1);
    b
  }

  /** The file name has a dot with something other than a dot before it. */
  predicate HasExtension(file: string) {
    exists i, j :: 0 <= j < i < |file| && file[j] != '.' && file[i] == '.'
  }

  predicate OnlyDots(file: string) {
    forall j :: 0 <= j < |file| ==> file[j] == '.'
  }

  /**
   What Python documents of os.path.splitext: the parts make up the path, the extension is empty or one dot-component
   of the file name, and leading dots belong to the root. The extension is empty only if there is none to split off.
   */
  predicate IsSplit(p: string, root: string, ext: string) {
    && root + ext == p
    && (ext == "" ==> !HasExtension(Basename(p)))
    && (ext != "" ==> ext[0] == '.' && '.' !in ext[1..] && '/' !in ext && !OnlyDots(Basename(root)))
  }

  /** What is left after a directory part that is empty or ends in a slash, and contains no slash; nothing else is. */
  lemma BasenameIff(p: string, b: string)
    ensures Basename(p) == b <==>
            '/' !in b && exists dir: string :: p == dir + b && (dir == "" || dir[|dir| - 1] == '/')
  {
    hide RFind;
    var cut := RFind(p, '/') + 1;
    assert p == p[..cut] + p[cut..];
    if Basename(p) == b {
      assert p == p[..cut] + b;
    }
    forall dir: string | '/' !in b && p == dir + b && (dir == "" || dir[|dir| - 1] == '/')
      ensures Basename(p) == b
    {
      BasenameIs(p, dir, b);
    }
  }

  lemma BasenameIs(p: string, dir: string, b: string)
    requires p == dir + b && '/' !in b && (dir == "" || dir[|dir| - 1] == '/')
    ensures Basename(p) == b
  {
    hide RFind;
    RFindIs(p, '/', |dir| - 1);
  }

  lemma BasenameSplit(root: string, ext: string)
    requires '/' !in ext
    ensures Basename(root + ext) == Basename(root) + ext
  {
    SameSlash(root, ext);
    hide RFind;
    DropOfSum(root, ext, RFind(root, '/') + 1);
  }

  lemma SameSlash(root: string, ext: string)
    requires '/' !in ext
    ensures RFind(root + ext, '/') == RFind(root, '/')
  {
    hide RFind;
    RFindIs(root + ext, '/', RFind(root, '/'));
  }

  lemma DropOfSum(s: string, t: string, i: nat)
    requires i <= |s|
    ensures (s + t)[i..] == s[i..] + t
  {
  }

  /** Positions of a file name, seen from the whole path. */
  lemma BasenameAt(p: string, i: int)
    requires RFind(p, '/') < i < |p|
    ensures |Basename(p)| == |p| - RFind(p, '/') - 1
    ensures Basename(p)[i - RFind(p, '/') - 1] == p[i]
  {
  }

  lemma ExtensionIsLastDot(p: string)
    requires HasExtension(Basename(p))
    ensures DotAt(p, RFind(p, '.'))
  {
    var slash, file := RFind(p, '/'), Basename(p);
    var i, j :| 0 <= j < i < |file| && file[j] != '.' && file[i] == '.';
    hide Basename, RFind;
    BasenameLength(p);
    BasenameAt(p, slash + 1 + i);
    BasenameAt(p, slash + 1 + j);
    assert RFind(p, '.') >= slash + 1 + i;
  }

  lemma BasenameLength(p: string)
    ensures |Basename(p)| == |p| - RFind(p, '/') - 1
  {
  }

  lemma RootHasStem(p: string, dot: int)
    requires DotAt(p, dot)
    ensures !OnlyDots(Basename(p[..dot]))
  {
    hide Basename, RFind;
    var root, slash := p[..dot], RFind(p, '/');
    var j :| slash < j < dot && p[j] != '.';
    RFindIs(root, '/', slash);
    BasenameAt(root, j);
  }

  lemma NoneAfterLast(p: string, c: char, from: int)
    requires RFind(p, c) < from <= |p|
    ensures c !in p[from..]
  {
    hide RFind;
  }

  lemma SplitOffIsExtension(p: string, dot: int)
    requires dot == RFind(p, '.') && DotAt(p, dot)
    ensures IsSplit(p, p[..dot], p[dot..])
  {
    hide Basename, RFind, OnlyDots, HasExtension;
    RootHasStem(p, dot);
    NoneAfterLast(p, '/', dot);
    NoneAfterLast(p, '.', dot + 1);
    assert p[dot..][1..] == p[dot + 1..];
    assert p[..dot] + p[dot..] == p;
  }

  lemma SplitExtMeets(p: string)
    ensures IsSplit(p, SplitExt(p).0, SplitExt(p).1)
  {
    hide DotAt, HasExtension, RFind, Basename;
    if DotAt(p, RFind(p, '.')) {
      SplitOffIsExtension(p, RFind(p, '.'));
    } else if HasExtension(Basename(p)) {
      ExtensionIsLastDot(p);
    }
  }

  /** Two such splits are the same split. */
  lemma SplitUnique(p: string, root: string, ext: string, root': string, ext': string)
    requires IsSplit(p, root, ext) && IsSplit(p, root', ext')
    ensures root == root' && ext == ext'
  {
    if ext == "" && ext' != "" {
      ExtensionFound(p, root', ext');
    } else if ext != "" && ext' == "" {
      ExtensionFound(p, root, ext);
    } else if ext != "" {
      SameLastDot(p, root, ext);
      SameLastDot(p, root', ext');
    }
    assert root == p[..|root|] && root' == p[..|root'|];
    assert ext == p[|root|..] && ext' == p[|root'|..];
  }

  lemma ExtensionFound(p: string, root: string, ext: string)
    requires IsSplit(p, root, ext) && ext != ""
    ensures HasExtension(Basename(p))
  {
    BasenameSplit(root, ext);
    var b := Basename(root);
    var j :| 0 <= j < |b| && b[j] != '.';
    assert (b + ext)[j] != '.' && (b + ext)[|b|] == '.';
  }

  lemma SameLastDot(p: string, root: string, ext: string)
    requires root + ext == p && ext != "" && ext[0] == '.' && '.' !in ext[1..]
    ensures |root| == RFind(p, '.')
  {
    forall j | |root| < j < |p|
      ensures p[j] != '.'
    {
      assert p[j] == ext[1..][j - |root| - 1];
    }
    RFindIs(p, '.', |root|);
  }

  /** The split is the documented one, and no other is. */
  lemma SplitExtIff(p: string, root: string, ext: string)
    ensures SplitExt(p) == (root, ext) <==> IsSplit(p, root, ext)
  {
    SplitExtMeets(p);
    if IsSplit(p, root, ext) {
      SplitUnique(p, root, ext, SplitExt(p).0, SplitExt(p).1);
    }
  }

  // ----- The names visited while stripping extensions -----

  /** What `name, ext = splitext(name)` visits until ext is sfx, or until nothing is left to strip. */
  function Visited(name: string, sfx: string): seq<string>
    decreases |name|
  {
    var (root, ext) := SplitExt(name);
    if ext == sfx || ext == "" then [] else [root] + Visited(root, sfx)
  }

  /** Whether that loop ends at sfx. */
  predicate Found(name: string, sfx: string)
    decreases |name|
  {
    var (root, ext) := SplitExt(name);
    if ext == sfx then true else if ext == "" then false else Found(root, sfx)
  }

  /** The dot-component of p that starts at i is exactly sfx. */
  predicate ComponentAt(p: string, i: int, sfx: string) {
    && DotAt(p, i)
    && i + |sfx| <= |p| && p[i..i + |sfx|] == sfx
    && (forall j :: i < j < i + |sfx| ==> p[j] != '.')
    && (i + |sfx| == |p| || p[i + |sfx|] == '.')
  }

  lemma DotNotBeforeLast(p: string, i: int)
    requires DotAt(p, i)
    ensures DotAt(p, RFind(p, '.')) && i <= RFind(p, '.')
  {
    var j :| RFind(p, '/') < j < i && p[j] != '.';
    assert j < RFind(p, '.');
  }

  /** Stripping the extension removes the last dot and leaves every other one. */
  lemma DotsOfRoot(p: string, i: int)
    requires SplitExt(p).1 != ""
    ensures DotAt(SplitExt(p).0, i) <==> DotAt(p, i) && i < |SplitExt(p).0|
  {
    var root := SplitExt(p).0;
    RFindIs(root, '/', RFind(p, '/'));
    if 0 <= i < |root| {
      assert forall j :: 0 <= j < |root| ==> root[j] == p[j];
    }
  }

  lemma ComponentsOfRoot(p: string, i: int, sfx: string)
    requires SplitExt(p).1 != "" && |sfx| > 0
    ensures ComponentAt(SplitExt(p).0, i, sfx) <==> ComponentAt(p, i, sfx) && i < |SplitExt(p).0|
  {
    var root := SplitExt(p).0;
    DotsOfRoot(p, i);
    assert root == p[..|root|] && p[|root|] == '.';
    if ComponentAt(p, i, sfx) && i < |root| {
      assert i + |sfx| <= |root|;
      assert root[i..i + |sfx|] == p[i..i + |sfx|];
    }
    if ComponentAt(root, i, sfx) {
      assert root[i..i + |sfx|] == p[i..i + |sfx|];
    }
  }

  lemma LastComponent(p: string, sfx: string)
    requires SplitExt(p).1 != "" && |sfx| > 0
    ensures ComponentAt(p, |SplitExt(p).0|, sfx) <==> SplitExt(p).1 == sfx
  {
    var (root, ext) := SplitExt(p);
    var dot := |root|;
    if ext == sfx {
      assert p[dot..dot + |sfx|] == sfx;
    }
    if ComponentAt(p, dot, sfx) {
      assert dot + |sfx| == |p|;
      assert p[dot..dot + |sfx|] == p[dot..];
    }
  }

  /** The loop succeeds exactly when some dot-component, leading dots not counting, is the suffix. */
  lemma {:induction false} FoundIffComponent(p: string, sfx: string)
    requires |sfx| > 0
    ensures Found(p, sfx) <==> exists i :: ComponentAt(p, i, sfx)
    decreases |p|
  {
    var (root, ext) := SplitExt(p);
    if ext == "" {
      forall i
        ensures !ComponentAt(p, i, sfx)
      {
        if DotAt(p, i) {
          DotNotBeforeLast(p, i);
        }
      }
    } else {
      LastComponent(p, sfx);
      FoundIffComponent(root, sfx);
      forall i
        ensures ComponentAt(root, i, sfx) <==> ComponentAt(p, i, sfx) && i < |root|
      {
        ComponentsOfRoot(p, i, sfx);
      }
      forall i | ComponentAt(p, i, sfx)
        ensures i <= |root|
      {
        DotNotBeforeLast(p, i);
      }
    }
  }

  /** A dot that lies after every component that is the suffix. */
  ghost predicate StopAt(p: string, k: int, sfx: string) {
    DotAt(p, k) && forall i :: ComponentAt(p, i, sfx) ==> i + |sfx| <= k
  }

  /** The names visited are exactly the prefixes that end before a dot lying after the last matching component. */
  lemma {:induction false} VisitedAre(p: string, sfx: string, name: string)
    requires |sfx| > 0
    ensures name in Visited(p, sfx) <==> exists k :: StopAt(p, k, sfx) && name == p[..k]
    decreases |p|
  {
    var (root, ext) := SplitExt(p);
    if ext == "" || ext == sfx {
      forall k
        ensures !StopAt(p, k, sfx)
      {
        NoStop(p, k, sfx);
      }
    } else {
      VisitedAre(root, sfx, name);
      forall k
        ensures StopAt(root, k, sfx) <==> StopAt(p, k, sfx) && k != |root|
        ensures StopAt(p, k, sfx) && k != |root| ==> p[..k] == root[..k]
      {
        StopsOfRoot(p, k, sfx);
      }
      LastDotStops(p, sfx);
    }
  }

  lemma NoStop(p: string, k: int, sfx: string)
    requires |sfx| > 0 && (SplitExt(p).1 == "" || SplitExt(p).1 == sfx)
    ensures !StopAt(p, k, sfx)
  {
    if DotAt(p, k) {
      DotNotBeforeLast(p, k);
      LastComponent(p, sfx);
    }
  }

  lemma StopsOfRoot(p: string, k: int, sfx: string)
    requires |sfx| > 0 && SplitExt(p).1 != "" && SplitExt(p).1 != sfx
    ensures StopAt(SplitExt(p).0, k, sfx) <==> StopAt(p, k, sfx) && k != |SplitExt(p).0|
    ensures StopAt(p, k, sfx) && k != |SplitExt(p).0| ==> p[..k] == SplitExt(p).0[..k]
  {
    var root := SplitExt(p).0;
    DotsOfRoot(p, k);
    if DotAt(p, k) {
      DotNotBeforeLast(p, k);
    }
    forall i
      ensures ComponentAt(root, i, sfx) <==> ComponentAt(p, i, sfx)
    {
      SameComponents(p, i, sfx);
    }
  }

  lemma SameComponents(p: string, i: int, sfx: string)
    requires |sfx| > 0 && SplitExt(p).1 != "" && SplitExt(p).1 != sfx
    ensures ComponentAt(SplitExt(p).0, i, sfx) <==> ComponentAt(p, i, sfx)
  {
    LastComponent(p, sfx);
    ComponentsOfRoot(p, i, sfx);
    if ComponentAt(p, i, sfx) {
      DotNotBeforeLast(p, i);
    }
  }

  lemma LastDotStops(p: string, sfx: string)
    requires |sfx| > 0 && SplitExt(p).1 != "" && SplitExt(p).1 != sfx
    ensures StopAt(p, |SplitExt(p).0|, sfx) && p[..|SplitExt(p).0|] == SplitExt(p).0
  {
    var root := SplitExt(p).0;
    forall i | ComponentAt(p, i, sfx)
      ensures i + |sfx| <= |root|
    {
      SameComponents(p, i, sfx);
    }
  }

  /** Every visited name is a proper prefix. */
  lemma VisitedIsPrefix(p: string, sfx: string, name: string)
    requires |sfx| > 0 && name in Visited(p, sfx)
    ensures name < p
  {
    VisitedAre(p, sfx, name);
  }

  // ----- Stripping below a directory -----

  lemma RFindAfter(dir: string, b: string, c: char)
    ensures RFind(dir + b, c) == if RFind(b, c) >= 0 then |dir| + RFind(b, c) else RFind(dir, c)
  {
    if RFind(b, c) >= 0 {
      RFindIs(dir + b, c, |dir| + RFind(b, c));
    } else {
      RFindIs(dir + b, c, RFind(dir, c));
    }
  }

  /** Stripping the extension of dir/b strips the extension of b. */
  lemma SplitExtBelow(dir: string, b: string)
    requires dir == "" || dir[|dir| - 1] == '/'
    requires RFind(b, '/') == -1
    ensures SplitExt(dir + b) == (dir + SplitExt(b).0, SplitExt(b).1)
    ensures RFind(SplitExt(b).0, '/') == -1
  {
    var p, d := dir + b, RFind(b, '.');
    NoSlashInRoot(b);
    RFindAfter(dir, b, '/');
    RFindAfter(dir, b, '.');
    assert RFind(p, '/') == |dir| - 1;
    if d >= 0 {
      DotBelow(dir, b, d);
      hide DotAt;
      assert p[..|dir| + d] == dir + b[..d];
      assert p[|dir| + d..] == b[d..];
    } else {
      assert !DotAt(b, d) && !DotAt(p, RFind(p, '.'));
    }
  }

  lemma NoSlashInRoot(b: string)
    requires RFind(b, '/') == -1
    ensures RFind(SplitExt(b).0, '/') == -1
  {
    var root := SplitExt(b).0;
    assert forall j :: 0 <= j < |root| ==> root[j] == b[j];
    RFindIs(root, '/', -1);
  }

  lemma DotBelow(dir: string, b: string, d: int)
    requires RFind(b, '/') == -1 && RFind(dir + b, '/') == |dir| - 1 && 0 <= d < |b|
    ensures DotAt(dir + b, |dir| + d) <==> DotAt(b, d)
  {
    var p := dir + b;
    if DotAt(b, d) {
      var j :| -1 < j < d && b[j] != '.';
      assert p[|dir| + j] != '.';
    }
    if DotAt(p, |dir| + d) {
      var j :| |dir| - 1 < j < |dir| + d && p[j] != '.';
      assert b[j - |dir|] != '.';
    }
  }
}
