/** The member table of an SDK archive (publication.py): what an accepted table guarantees about the
    tree a reader would unpack.  Unicode normalisation and the character checks are parameters. */
module MemberTable {
  import opened Limits
  import opened Wrappers
  import opened PythonText

  const MAX_BYTES := 512 * 1024 * 1024
  const ENTRY_BOUND := 8192 + 128

  datatype Kind = File(data: seq<int>) | Directory | Symlink(target: string) | Special

  /** A member as `tarfile` reports it; a file's data is what reading it gave. */
  datatype Member = Member(name: string, kind: Kind, mode: int, size: int)

  datatype Table = Table(files: map<string, (seq<int>, int)>, directories: map<string, int>, symlinks: map<string, string>)

  // ---------------------------------------------------------------- paths

  function Components(name: string): (parts: seq<string>)
    ensures parts != []
  {
    Split(name, '/')
  }

  function Join(parts: seq<string>): string {
    if parts == [] then "" else if |parts| == 1 then parts[0] else parts[0] + ("/" + Join(parts[1..]))
  }

  /** `Path` drops empty components and dots. */
  function Kept(parts: seq<string>): seq<string> {
    if parts == [] then []
    else if parts[0] == "" || parts[0] == "." then Kept(parts[1..])
    else [parts[0]] + Kept(parts[1..])
  }

  /** `Path(name).parts` of a relative path. */
  function PathParts(name: string): seq<string> {
    Kept(Components(name))
  }

  /** `Path(name).parents` of a relative path: the proper prefixes and the dot. */
  predicate IsParent(parent: string, name: string) {
    var parts := PathParts(name);
    parent == "." || exists k :: 1 <= k < |parts| && parent == Join(parts[..k])
  }

  predicate Proper(part: string) {
    part != "" && part != "." && '/' !in part
  }

  predicate AllProper(parts: seq<string>) {
    parts == [] || (Proper(parts[0]) && AllProper(parts[1..]))
  }

  predicate NoSlash(parts: seq<string>) {
    forall part :: part in parts ==> '/' !in part
  }

  /** Splitting undoes joining for components without slashes. */
  lemma {:induction false} ComponentsOfJoin(parts: seq<string>)
    requires parts != [] && NoSlash(parts)
    ensures Components(Join(parts)) == parts
    decreases |parts|
  {
    hide Split;
    assert parts[0] in parts && parts == [parts[0]] + parts[1..];
    if |parts| == 1 {
      SplitNone(parts[0], '/');
    } else {
      SplitAt(parts[0], '/', Join(parts[1..]));
      ComponentsOfJoin(parts[1..]);
    }
  }

  /** Joining undoes splitting. */
  lemma {:induction false} JoinComponents(name: string)
    ensures Join(Components(name)) == name
  {
    if name != [] {
      var rest := Components(name[1..]);
      JoinComponents(name[1..]);
      assert name == [name[0]] + name[1..];
      if name[0] == '/' {
        assert ([""] + rest)[1..] == rest;
      } else {
        var first := [name[0]] + rest[0];
        assert ([first] + rest[1..])[1..] == rest[1..];
        if |rest| > 1 { assert first + ("/" + Join(rest[1..])) == [name[0]] + (rest[0] + ("/" + Join(rest[1..]))); }
      }
    }
  }

  lemma {:induction false} KeptIsProper(parts: seq<string>)
    requires NoSlash(parts)
    ensures AllProper(Kept(parts)) && NoSlash(Kept(parts))
  {
    if parts != [] {
      KeptIsProper(parts[1..]);
      if !(parts[0] == "" || parts[0] == ".") {
        assert ([parts[0]] + Kept(parts[1..]))[1..] == Kept(parts[1..]);
      }
    }
  }

  lemma {:induction false} KeptOfProper(parts: seq<string>)
    requires AllProper(parts)
    ensures Kept(parts) == parts
  {
    if parts != [] {
      KeptOfProper(parts[1..]);
      assert [parts[0]] + parts[1..] == parts;
    }
  }

  /** A name that equals the join of its parts has only proper components. */
  lemma {:induction false} CleanNameIsProper(name: string)
    requires name != "" && name == Join(PathParts(name))
    ensures AllProper(Components(name)) && PathParts(name) == Components(name)
  {
    PartsAreClean(name, '/');
    KeptIsProper(Components(name));
    if PathParts(name) != [] {
      ComponentsOfJoin(PathParts(name));
    }
  }

  // ---------------------------------------------------------------- the checks

  predicate SafeName(name: string, safe: string -> bool) {
    && name != "" && name[0] != '/' && name == Join(PathParts(name))
    && ".." !in PathParts(name) && '\\' !in name && ':' !in name && safe(name)
  }

  /** A name made of components that are not empty, no dot and no two dots, and hold no slash,
      backslash or colon. */
  ghost predicate CleanName(name: string) {
    exists parts :: parts != [] && name == Join(parts) && forall i :: 0 <= i < |parts| ==> CleanPart(parts[i])
  }

  predicate CleanPart(part: string) {
    part != "" && part != "." && part != ".." && forall c :: c in part ==> c != '/' && c != '\\' && c != ':'
  }

  /** The check on a name accepts exactly the clean ones among the safe ones. */
  lemma {:induction false} SafeNameMeaning(name: string, safe: string -> bool)
    ensures SafeName(name, safe) <==> CleanName(name) && safe(name)
  {
    hide Split, Join;
    if SafeName(name, safe) {
      var parts := Components(name);
      CleanNameIsProper(name);
      JoinComponents(name);
      forall i | 0 <= i < |parts| ensures CleanPart(parts[i]) {
        ProperAt(parts, i);
        assert parts[i] in parts;
        PartOfName(name, parts[i]);
      }
    }
    if CleanName(name) && safe(name) {
      var parts :| parts != [] && name == Join(parts) && forall i :: 0 <= i < |parts| ==> CleanPart(parts[i]);
      CleanJoin(parts);
      ComponentsOfJoin(parts);
      KeptOfProper(parts);
    }
  }

  lemma {:induction false} ProperAt(parts: seq<string>, i: nat)
    requires AllProper(parts) && i < |parts|
    ensures Proper(parts[i])
  {
    if i > 0 { ProperAt(parts[1..], i - 1); }
  }

  /** A component holds only characters of the name. */
  lemma {:induction false} PartOfName(name: string, part: string)
    requires part in Components(name)
    ensures forall c :: c in part ==> c in name
  {
    if name != [] {
      var rest := Components(name[1..]);
      assert name == [name[0]] + name[1..];
      if part in rest {
        PartOfName(name[1..], part);
      } else if name[0] != '/' {
        PartOfName(name[1..], rest[0]);
      }
    }
  }

  lemma {:induction false} CleanJoin(parts: seq<string>)
    requires parts != [] && forall i :: 0 <= i < |parts| ==> CleanPart(parts[i])
    ensures AllProper(parts) && NoSlash(parts) && ".." !in parts
    ensures Join(parts) != "" && Join(parts)[0] != '/' && '\\' !in Join(parts) && ':' !in Join(parts)
    decreases |parts|
  {
    assert parts[0][0] in parts[0];
    if |parts| > 1 { CleanJoin(parts[1..]); }
  }

  predicate SoundMember(m: Member, safe: string -> bool) {
    && SafeName(m.name, safe) && 0 <= m.mode <= 0x1FF && 0 <= m.size <= MEMBER_BOUND
    && match m.kind
       case File(data) => |data| == m.size
       case Directory => m.size == 0
       case Symlink(_) => m.size == 0 && m.mode == 0x1FF
       case Special => false
  }

  /** What a member must be: cleanly named, with permission bits only, of bounded size; a file has its
      data, a directory and a link have none, and a link's bits are all set. */
  ghost predicate Sound(m: Member, safe: string -> bool) {
    && CleanName(m.name) && safe(m.name) && 0 <= m.mode < 512 && 0 <= m.size <= 268435456 && !m.kind.Special?
    && (m.kind.File? ==> |m.kind.data| == m.size)
    && (m.kind.Directory? ==> m.size == 0)
    && (m.kind.Symlink? ==> m.size == 0 && m.mode == 511)
  }

  lemma {:induction false} SoundMeaning(m: Member, safe: string -> bool)
    ensures SoundMember(m, safe) <==> Sound(m, safe)
  {
    hide SafeName, CleanName;
    SafeNameMeaning(m.name, safe);
  }

  predicate IsNode(m: Member) {
    m.kind.File? || m.kind.Symlink?
  }

  function TotalBytes(members: seq<Member>): int {
    if members == [] then 0
    else
      var n := |members| - 1;
      TotalBytes(members[..n]) + (if members[n].kind.File? then members[n].size else 0)
  }

  /** The bytes of all files, one after the other. */
  function AllData(members: seq<Member>): seq<int> {
    if members == [] then []
    else
      var last := members[|members| - 1];
      AllData(members[..|members| - 1]) + (if last.kind.File? then last.kind.data else [])
  }

  lemma {:induction false} TotalIsData(members: seq<Member>, safe: string -> bool)
    requires forall i :: 0 <= i < |members| ==> Sound(members[i], safe)
    ensures TotalBytes(members) == |AllData(members)|
  {
    if members != [] { TotalIsData(members[..|members| - 1], safe); }
  }

  ghost predicate DistinctPortable(members: seq<Member>, portable: string -> string) {
    forall i, j :: 0 <= i < j < |members| ==> portable(members[i].name) != portable(members[j].name)
  }

  function PortableNames(members: seq<Member>, portable: string -> string): set<string> {
    set m | m in members :: portable(m.name)
  }

  /** The last check: a portable name that stands beneath a file or a link. */
  ghost predicate Beneath(members: seq<Member>, portable: string -> string, i: nat, j: nat, parent: string)
    requires i < |members| && j < |members|
  {
    IsNode(members[i]) && IsParent(parent, portable(members[j].name)) && portable(parent) == portable(members[i].name)
  }

  ghost predicate NoneBeneath(members: seq<Member>, portable: string -> string) {
    forall i, j, parent :: 0 <= i < |members| && 0 <= j < |members| ==> !Beneath(members, portable, i, j, parent)
  }

  ghost predicate Accepted(members: seq<Member>, portable: string -> string, safe: string -> bool) {
    && |members| <= 8320
    && (forall i :: 0 <= i < |members| ==> Sound(members[i], safe))
    && DistinctPortable(members, portable)
    && |AllData(members)| <= 536870912
    && NoneBeneath(members, portable)
  }

  function Record(table: Table, m: Member): Table {
    match m.kind
    case File(data) => table.(files := table.files[m.name := (data, m.mode)])
    case Directory => table.(directories := table.directories[m.name := m.mode])
    case Symlink(target) => table.(symlinks := table.symlinks[m.name := target])
    case Special => table
  }

  function TableOf(members: seq<Member>): Table {
    if members == [] then Table(map[], map[], map[])
    else Record(TableOf(members[..|members| - 1]), members[|members| - 1])
  }

  predicate Recorded(table: Table, m: Member) {
    match m.kind
    case File(data) => m.name in table.files && table.files[m.name] == (data, m.mode)
    case Directory => m.name in table.directories && table.directories[m.name] == m.mode
    case Symlink(target) => m.name in table.symlinks && table.symlinks[m.name] == target
    case Special => true
  }

  lemma {:induction false} TotalGrows(members: seq<Member>, n: nat, safe: string -> bool)
    requires n <= |members| && forall i :: 0 <= i < |members| ==> Sound(members[i], safe)
    ensures TotalBytes(members[..n]) <= TotalBytes(members)
    decreases |members| - n
  {
    if n < |members| {
      TotalGrows(members, n + 1, safe);
      assert members[..n + 1][..n] == members[..n];
    } else {
      assert members[..n] == members;
    }
  }

  // ---------------------------------------------------------------- the program

  /** The loop over the members and the check of every name's parents. */
  method BuildTable(members: seq<Member>, portable: string -> string, safe: string -> bool) returns (r: Result<Table>)
    ensures r.Ok? <==> Accepted(members, portable, safe)
    ensures r.Ok? ==> r.value == TableOf(members)
  {
    hide SoundMember, Sound, SafeName, TotalBytes, AllData, Record, DistinctPortable, NoneBeneath, PortableNames;
    var table := Table(map[], map[], map[]);
    var seen: set<string> := {};
    var total := 0;
    NothingYet(portable);
    for index := 0 to |members|
      invariant index <= ENTRY_BOUND
      invariant forall i :: 0 <= i < index ==> Sound(members[i], safe)
      invariant DistinctPortable(members[..index], portable)
      invariant seen == PortableNames(members[..index], portable)
      invariant total == TotalBytes(members[..index]) <= MAX_BYTES
      invariant table == TableOf(members[..index])
    {
      var m := members[index];
      SoundMeaning(m, safe);
      if !(index < ENTRY_BOUND) {
        return Err("SDK archive entry envelope exceeded");
      }
      if !SafeName(m.name, safe) {
        UnsafeIsNotSound(m, safe);
        return Err("Unsafe SDK archive path");
      }
      var name := portable(m.name);
      if name in seen {
        NotDistinct(members, index, portable);
        return Err("Duplicate portable SDK archive member");
      }
      if !SoundMember(m, safe) {
        return Err("SDK archive member refused");
      }
      total := total + if m.kind.File? then m.size else 0;
      TotalAppend(members, index);
      if total > MAX_BYTES {
        NotAccepted(members, index + 1, portable, safe);
        return Err("SDK archive expanded byte budget exceeded");
      }
      table := Record(table, m);
      seen := seen + {name};
      assert members[..index + 1][..index] == members[..index];
      DistinctExtends(members, index, portable);
    }
    assert members[..|members|] == members;
    TotalIsData(members, safe);
    var beneath := AnyBeneath(members, portable);
    if beneath {
      return Err("SDK archive physical member beneath non-directory");
    }
    r := Ok(table);
  }

  lemma {:induction false} UnsafeIsNotSound(m: Member, safe: string -> bool)
    requires !SafeName(m.name, safe)
    ensures !SoundMember(m, safe)
  {
  }

  lemma {:induction false} NothingYet(portable: string -> string)
    ensures TotalBytes([]) == 0 && DistinctPortable([], portable) && PortableNames([], portable) == {}
  {
  }

  lemma {:induction false} NotDistinct(members: seq<Member>, n: nat, portable: string -> string)
    requires n < |members| && portable(members[n].name) in PortableNames(members[..n], portable)
    ensures !DistinctPortable(members, portable)
  {
    var m :| m in members[..n] && portable(m.name) == portable(members[n].name);
    var i :| 0 <= i < n && members[..n][i] == m;
    assert members[i] == m;
  }

  lemma {:induction false} DistinctExtends(members: seq<Member>, n: nat, portable: string -> string)
    requires n < |members| && DistinctPortable(members[..n], portable)
    requires portable(members[n].name) !in PortableNames(members[..n], portable)
    ensures DistinctPortable(members[..n + 1], portable)
    ensures PortableNames(members[..n + 1], portable) == PortableNames(members[..n], portable) + {portable(members[n].name)}
  {
    var longer := members[..n + 1];
    assert longer == members[..n] + [members[n]];
    forall i, j | 0 <= i < j < |longer| ensures portable(longer[i].name) != portable(longer[j].name) {
      assert longer[i] == members[..n][i] && members[..n][i] in members[..n];
      if j < n { assert longer[j] == members[..n][j]; }
    }
  }

  lemma {:induction false} TotalAppend(members: seq<Member>, n: nat)
    requires n < |members|
    ensures TotalBytes(members[..n + 1]) == TotalBytes(members[..n]) + (if members[n].kind.File? then members[n].size else 0)
  {
    assert members[..n + 1][..n] == members[..n];
  }

  lemma {:induction false} NotAccepted(members: seq<Member>, n: nat, portable: string -> string, safe: string -> bool)
    requires n <= |members| && TotalBytes(members[..n]) > MAX_BYTES
    ensures !Accepted(members, portable, safe)
  {
    hide Sound, TotalBytes, IsParent, AllData;
    if Accepted(members, portable, safe) {
      TotalIsData(members, safe);
      TotalGrows(members, n, safe);
    }
  }

  /** `any` over the parents of every name. */
  method AnyBeneath(members: seq<Member>, portable: string -> string) returns (found: bool)
    ensures found <==> !NoneBeneath(members, portable)
  {
    hide PathParts, Join;
    var nondirectories: set<string> := set i | 0 <= i < |members| && IsNode(members[i]) :: portable(members[i].name);
    for j := 0 to |members|
      invariant forall i, k, parent :: 0 <= i < |members| && 0 <= k < j ==> !Beneath(members, portable, i, k, parent)
    {
      var parts := PathParts(portable(members[j].name));
      if portable(".") in nondirectories {
        var i :| 0 <= i < |members| && IsNode(members[i]) && portable(members[i].name) == portable(".");
        assert Beneath(members, portable, i, j, ".");
        return true;
      }
      var k := 1;
      while k < |parts|
        invariant 1 <= k
        invariant forall n, i :: 1 <= n < k && n < |parts| && 0 <= i < |members| ==> !Beneath(members, portable, i, j, Join(parts[..n]))
      {
        if portable(Join(parts[..k])) in nondirectories {
          var i :| 0 <= i < |members| && IsNode(members[i]) && portable(members[i].name) == portable(Join(parts[..k]));
          assert Beneath(members, portable, i, j, Join(parts[..k]));
          return true;
        }
        k := k + 1;
      }
    }
    found := false;
  }

  /** The table holds nothing but the members: each of its rows is the record of one. */
  lemma {:induction false} FileHasMember(members: seq<Member>, name: string) returns (i: nat)
    requires name in TableOf(members).files
    ensures i < |members| && members[i].name == name && members[i].kind.File? && Recorded(TableOf(members), members[i])
  {
    var n := |members| - 1;
    if members[n].kind.File? && members[n].name == name {
      i := n;
    } else {
      i := FileHasMember(members[..n], name);
    }
  }

  lemma {:induction false} DirectoryHasMember(members: seq<Member>, name: string) returns (i: nat)
    requires name in TableOf(members).directories
    ensures i < |members| && members[i].name == name && members[i].kind.Directory? && Recorded(TableOf(members), members[i])
  {
    var n := |members| - 1;
    if members[n].kind.Directory? && members[n].name == name {
      i := n;
    } else {
      i := DirectoryHasMember(members[..n], name);
    }
  }

  lemma {:induction false} SymlinkHasMember(members: seq<Member>, name: string) returns (i: nat)
    requires name in TableOf(members).symlinks
    ensures i < |members| && members[i].name == name && members[i].kind.Symlink? && Recorded(TableOf(members), members[i])
  {
    var n := |members| - 1;
    if members[n].kind.Symlink? && members[n].name == name {
      i := n;
    } else {
      i := SymlinkHasMember(members[..n], name);
    }
  }

  /** Every member is recorded as it was read: no later member overwrites an earlier one. */
  lemma {:induction false} EveryMemberRecorded(members: seq<Member>, portable: string -> string, i: nat)
    requires DistinctPortable(members, portable) && i < |members|
    ensures Recorded(TableOf(members), members[i])
  {
    var n := |members| - 1;
    if i < n {
      assert DistinctPortable(members[..n], portable);
      EveryMemberRecorded(members[..n], portable, i);
      assert portable(members[i].name) != portable(members[n].name);
    }
  }

  // ---------------------------------------------------------------- the tree

  function FoldAll(fold: string -> string, parts: seq<string>): (r: seq<string>)
    ensures |r| == |parts|
  {
    if parts == [] then [] else [fold(parts[0])] + FoldAll(fold, parts[1..])
  }

  /** The portable map works component by component and keeps components proper. */
  ghost predicate ComponentWise(portable: string -> string, fold: string -> string) {
    && (forall name: string :: Components(portable(name)) == FoldAll(fold, Components(name)))
    && (forall part: string :: Proper(part) ==> Proper(fold(part)))
    && fold(".") == "."
  }

  /** Normalising and folding twice changes nothing. */
  ghost predicate Stable(fold: string -> string) {
    forall part: string :: fold(fold(part)) == fold(part)
  }

  /** The components of a member's portable name. */
  function Folded(m: Member, fold: string -> string): seq<string> {
    FoldAll(fold, Components(m.name))
  }

  predicate ProperPrefix(a: seq<string>, b: seq<string>) {
    |a| < |b| && b[..|a|] == a
  }

  lemma {:induction false} FoldKeepsProper(fold: string -> string, parts: seq<string>)
    requires AllProper(parts) && forall part: string :: Proper(part) ==> Proper(fold(part))
    ensures AllProper(FoldAll(fold, parts))
  {
    if parts != [] {
      FoldKeepsProper(fold, parts[1..]);
      assert FoldAll(fold, parts)[1..] == FoldAll(fold, parts[1..]);
    }
  }

  lemma {:induction false} ProperHasNoSlash(parts: seq<string>)
    requires AllProper(parts)
    ensures NoSlash(parts)
  {
    if parts != [] { ProperHasNoSlash(parts[1..]); }
  }

  lemma {:induction false} ProperPrefixes(parts: seq<string>, k: nat)
    requires AllProper(parts) && k <= |parts|
    ensures AllProper(parts[..k])
  {
    if k > 0 {
      ProperPrefixes(parts[1..], k - 1);
      assert parts[..k][1..] == parts[1..][..k - 1];
    }
  }

  lemma {:induction false} FoldStable(fold: string -> string, parts: seq<string>, k: nat)
    requires Stable(fold) && k <= |parts|
    ensures FoldAll(fold, FoldAll(fold, parts)[..k]) == FoldAll(fold, parts)[..k]
  {
    if k > 0 {
      var once := FoldAll(fold, parts);
      assert once[1..] == FoldAll(fold, parts[1..]);
      assert once[..k][1..] == once[1..][..k - 1];
      FoldStable(fold, parts[1..], k - 1);
      assert once[..k] == [once[0]] + once[..k][1..];
    }
  }

  /** The parents of a portable name, as component lists. */
  lemma {:induction false} ParentParts(name: string, portable: string -> string, fold: string -> string, k: nat)
    requires ComponentWise(portable, fold) && Stable(fold) && AllProper(Components(name))
    requires 1 <= k < |Components(name)|
    ensures PathParts(portable(name)) == FoldAll(fold, Components(name))
    ensures Components(portable(Join(FoldAll(fold, Components(name))[..k]))) == FoldAll(fold, Components(name))[..k]
  {
    hide Stable;
    var parts := FoldAll(fold, Components(name));
    FoldKeepsProper(fold, Components(name));
    KeptOfProper(parts);
    ProperPrefixes(parts, k);
    ProperHasNoSlash(parts[..k]);
    ComponentsOfJoin(parts[..k]);
    FoldStable(fold, Components(name), k);
  }

  lemma {:induction false} ComponentsInjective(a: string, b: string)
    requires Components(a) == Components(b)
    ensures a == b
  {
    JoinComponents(a);
    JoinComponents(b);
  }

  /** The parent check means: no file or link is, component by component, a proper ancestor of a
      member, up to the portable form. */
  lemma {:induction false} BeneathIsAncestry(members: seq<Member>, portable: string -> string,
                                             fold: string -> string, i: nat, j: nat)
    requires ComponentWise(portable, fold) && Stable(fold)
    requires i < |members| && j < |members| && AllProper(Components(members[i].name)) && AllProper(Components(members[j].name))
    ensures (exists parent :: Beneath(members, portable, i, j, parent)) <==>
              IsNode(members[i]) && ProperPrefix(Folded(members[i], fold), Folded(members[j], fold))
  {
    hide Components, PathParts, Stable, Join, AllProper;
    var a, b := Folded(members[i], fold), Folded(members[j], fold);
    var name := members[j].name;
    if exists parent :: Beneath(members, portable, i, j, parent) {
      var parent :| Beneath(members, portable, i, j, parent);
      DotIsNoMember(members[i].name, portable, fold);
      FoldedParts(name, portable, fold);
      var k :| 1 <= k < |PathParts(portable(name))| && parent == Join(PathParts(portable(name))[..k]);
      ParentParts(name, portable, fold, k);
      assert b[..k] == a;
    }
    if IsNode(members[i]) && ProperPrefix(a, b) {
      var k := |a|;
      ParentParts(name, portable, fold, k);
      var parent := Join(b[..k]);
      ComponentsInjective(portable(parent), portable(members[i].name));
      assert IsParent(parent, portable(name));
      assert Beneath(members, portable, i, j, parent);
    }
  }

  lemma {:induction false} FoldedParts(name: string, portable: string -> string, fold: string -> string)
    requires ComponentWise(portable, fold) && AllProper(Components(name))
    ensures PathParts(portable(name)) == FoldAll(fold, Components(name))
  {
    FoldKeepsProper(fold, Components(name));
    KeptOfProper(FoldAll(fold, Components(name)));
  }

  lemma {:induction false} DotIsDot(portable: string -> string, fold: string -> string)
    requires Components(portable(".")) == FoldAll(fold, Components(".")) && fold(".") == "."
    ensures Components(portable(".")) == ["."]
  {
    SplitNone(".", '/');
    assert FoldAll(fold, ["."]) == ["."];
  }

  lemma {:induction false} DotIsNoMember(name: string, portable: string -> string, fold: string -> string)
    requires ComponentWise(portable, fold) && AllProper(Components(name))
    ensures portable(".") != portable(name)
  {
    hide Components, FoldAll;
    DotIsDot(portable, fold);
    FoldKeepsProper(fold, Components(name));
    assert AllProper(Components(portable(name)));
    assert !Proper(".");
  }

  /** An accepted table is a physical tree: up to the portable form the names of all files,
      directories and links are different paths, none of them is beneath a file or a link, and the
      bounds hold. */
  lemma {:induction false} AcceptedIsTree(members: seq<Member>, portable: string -> string, fold: string -> string,
                                          safe: string -> bool)
    requires ComponentWise(portable, fold) && Stable(fold) && Accepted(members, portable, safe)
    ensures forall i, j :: 0 <= i < j < |members| ==> Folded(members[i], fold) != Folded(members[j], fold)
    ensures forall i, j :: 0 <= i < |members| && 0 <= j < |members| && !members[i].kind.Directory? ==>
              !ProperPrefix(Folded(members[i], fold), Folded(members[j], fold))
    ensures |members| <= 8320 && |AllData(members)| <= 536870912
  {
    hide Stable, AllData, Sound, Folded, ComponentWise, Beneath, ProperPrefix;
    forall i, j | 0 <= i < j < |members| ensures Folded(members[i], fold) != Folded(members[j], fold) {
      SameFolded(members[i], members[j], portable, fold);
      assert portable(members[i].name) != portable(members[j].name);
    }
    forall i, j | 0 <= i < |members| && 0 <= j < |members| && !members[i].kind.Directory?
      ensures !ProperPrefix(Folded(members[i], fold), Folded(members[j], fold))
    {
      ProperMember(members[i], safe);
      ProperMember(members[j], safe);
      NodeOrDirectory(members[i], safe);
      BeneathIsAncestry(members, portable, fold, i, j);
    }
  }

  lemma {:induction false} NodeOrDirectory(m: Member, safe: string -> bool)
    requires Sound(m, safe)
    ensures IsNode(m) <==> !m.kind.Directory?
  {
  }

  lemma {:induction false} ProperMember(m: Member, safe: string -> bool)
    requires Sound(m, safe)
    ensures AllProper(Components(m.name))
  {
    hide CleanName, SafeName;
    SafeNameMeaning(m.name, safe);
    SafeIsProper(m.name, safe);
  }

  lemma {:induction false} SafeIsProper(name: string, safe: string -> bool)
    requires SafeName(name, safe)
    ensures AllProper(Components(name))
  {
    CleanNameIsProper(name);
  }

  lemma {:induction false} SameFolded(a: Member, b: Member, portable: string -> string, fold: string -> string)
    requires ComponentWise(portable, fold)
    ensures Folded(a, fold) == Folded(b, fold) <==> portable(a.name) == portable(b.name)
  {
    hide Components;
    if Folded(a, fold) == Folded(b, fold) { ComponentsInjective(portable(a.name), portable(b.name)); }
  }

  /** Nothing else is refused for its place in the tree: sound members within the bounds whose
      portable paths are distinct and not beneath files or links are accepted. */
  lemma {:induction false} TreeIsAccepted(members: seq<Member>, portable: string -> string, fold: string -> string,
                                          safe: string -> bool)
    requires ComponentWise(portable, fold) && Stable(fold)
    requires |members| <= 8320 && |AllData(members)| <= 536870912
    requires forall i :: 0 <= i < |members| ==> Sound(members[i], safe)
    requires forall i, j :: 0 <= i < j < |members| ==> Folded(members[i], fold) != Folded(members[j], fold)
    requires forall i, j :: 0 <= i < |members| && 0 <= j < |members| && !members[i].kind.Directory? ==>
               !ProperPrefix(Folded(members[i], fold), Folded(members[j], fold))
    ensures Accepted(members, portable, safe)
  {
    hide Stable, AllData, Folded, ComponentWise, Beneath, ProperPrefix, Sound;
    forall i, j | 0 <= i < j < |members| ensures portable(members[i].name) != portable(members[j].name) {
      SameFolded(members[i], members[j], portable, fold);
    }
    forall i, j, parent | 0 <= i < |members| && 0 <= j < |members| ensures !Beneath(members, portable, i, j, parent) {
      ProperMember(members[i], safe);
      ProperMember(members[j], safe);
      NodeOrDirectory(members[i], safe);
      BeneathIsAncestry(members, portable, fold, i, j);
      if !members[i].kind.Directory? { assert !ProperPrefix(Folded(members[i], fold), Folded(members[j], fold)); }
    }
  }
}
