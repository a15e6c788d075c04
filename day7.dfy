/** Day 7 of 2022 (2022/day7.rs): no space left on device. A terminal
    session (`$ cd`, `$ ls` and the listing lines `dir x` and `<size> x`) is
    replayed into a directory tree. Part 1 adds the sizes of the
    directories of size at most 100000; part 2 picks the smallest directory
    whose removal leaves 30000000 of the 70000000 free. The hash maps become
    Dafny maps, and the walks over them pick their keys in an unspecified
    order, as the iteration of a `HashMap` does. */
module Day7 {
  import opened Results
  import opened TextNum

  const I32_MIN: int := -0x8000_0000
  const I32_MAX: int := 0x7FFF_FFFF
  const SMALL: int := 100000
  const DISK: int := 70000000
  const NEEDED: int := 30000000

  /** `Dir`, with each `File` reduced to its size under its name. */
  datatype Dir = Dir(name: string, files: map<string, int>, dirs: map<string, Dir>)

  /** The session state: the tree and `current_stack`. */
  datatype Shell = Shell(root: Dir, stack: seq<string>)

  /** `Dir::new`. */
  function NewDir(name: string): Dir {
    Dir(name, map[], map[])
  }

  // ---------------------------------------------------------------------
  // get_top_dir and the updates through it

  /** The stack without its `"/"` entries, which get_top_dir skips. */
  function Names(stack: seq<string>): (r: seq<string>)
    ensures forall i | 0 <= i < |r| :: r[i] != "/"
  {
    if stack == [] then []
    else (if stack[0] == "/" then [] else [stack[0]]) + Names(stack[1..])
  }

  /** The directory reached by following the names from `root`, or None
      where a name is missing (the `unwrap` panics). */
  function Resolve(root: Dir, names: seq<string>): Option<Dir>
    decreases |names|
  {
    if names == [] then Some(root)
    else if names[0] in root.dirs then Resolve(root.dirs[names[0]], names[1..])
    else None
  }

  function GetTopDir(stack: seq<string>, root: Dir): Option<Dir> {
    Resolve(root, Names(stack))
  }

  /** root with the directory at `names` replaced by `nd`: the effect of
      changing the directory that get_top_dir's `&mut` points to. */
  function ModifyAt(root: Dir, names: seq<string>, nd: Dir): Dir
    requires Resolve(root, names).Some?
    decreases |names|
  {
    if names == [] then nd
    else root.(dirs := root.dirs[names[0] := ModifyAt(root.dirs[names[0]], names[1..], nd)])
  }

  /** One line of the session, or None when the code panics: a blank line,
      a missing word, `cd ..` with an empty stack, `cd x` to an unknown
      directory, or a new file whose size is not an i32. */
  function Step(sh: Shell, line: string): Option<Shell> {
    var text := Words(line);
    if |text| == 0 then None
    else if text[0] == "$" then
      if |text| < 2 then None
      else if text[1] != "cd" then Some(sh)
      else if |text| < 3 then None
      else if text[2] == "/" then Some(sh.(stack := ["/"]))
      else if text[2] == ".." then
        if sh.stack == [] then None else Some(sh.(stack := sh.stack[..|sh.stack| - 1]))
      else
        var cur := GetTopDir(sh.stack, sh.root);
        if cur.None? || text[2] !in cur.value.dirs then None
        else Some(sh.(stack := sh.stack + [cur.value.dirs[text[2]].name]))
    else if |text| < 2 then None
    else
      var cur := GetTopDir(sh.stack, sh.root);
      if cur.None? then None
      else if text[0] == "dir" then
        if text[1] in cur.value.dirs then Some(sh)
        else
          var nd := cur.value.(dirs := cur.value.dirs[text[1] := NewDir(text[1])]);
          Some(sh.(root := ModifyAt(sh.root, Names(sh.stack), nd)))
      else if text[1] in cur.value.files then Some(sh)
      else
        var size := ParseInt(text[0], I32_MIN, I32_MAX);
        if size.None? then None
        else
          var nd := cur.value.(files := cur.value.files[text[1] := size.value]);
          Some(sh.(root := ModifyAt(sh.root, Names(sh.stack), nd)))
  }

  function Initial(): Shell {
    Shell(NewDir("/"), ["/"])
  }

  /** The state after the lines, or None on a panic. */
  function Run(lines: seq<string>): Option<Shell> {
    if lines == [] then Some(Initial())
    else
      var before := Run(lines[..|lines| - 1]);
      if before.None? then None else Step(before.value, lines[|lines| - 1])
  }

  /** The body of the command loop. */
  method Execute(sh: Shell, line: string) returns (r: Option<Shell>)
    ensures r == Step(sh, line)
  {
    var text := Words(line);
    if |text| == 0 {
      return None;
    }
    var root, stack := sh.root, sh.stack;
    if text[0] == "$" {
      if |text| < 2 {
        return None;
      }
      if text[1] == "cd" {
        if |text| < 3 {
          return None;
        }
        if text[2] == "/" {
          stack := ["/"];
        } else if text[2] == ".." {
          if stack == [] {
            return None;
          }
          stack := stack[..|stack| - 1];
        } else {
          var cur := GetTopDir(stack, root);
          if cur.None? || text[2] !in cur.value.dirs {
            return None;
          }
          stack := stack + [cur.value.dirs[text[2]].name];
        }
      }
    } else {
      if |text| < 2 {
        return None;
      }
      var cur := GetTopDir(stack, root);
      if cur.None? {
        return None;
      }
      if text[0] == "dir" {
        if text[1] !in cur.value.dirs {
          root := ModifyAt(root, Names(stack), cur.value.(dirs := cur.value.dirs[text[1] := NewDir(text[1])]));
        }
      } else if text[1] !in cur.value.files {
        var size := ParseInt(text[0], I32_MIN, I32_MAX);
        if size.None? {
          return None;
        }
        root := ModifyAt(root, Names(stack), cur.value.(files := cur.value.files[text[1] := size.value]));
      }
    }
    r := Some(Shell(root, stack));
  }

  /** The command loop of `main`. */
  method Replay(lines: seq<string>) returns (r: Option<Shell>)
    ensures r == Run(lines)
  {
    var sh := Initial();
    for i := 0 to |lines|
      invariant Run(lines[..i]) == Some(sh)
    {
      assert lines[..i + 1][..i] == lines[..i];
      var next := Execute(sh, lines[i]);
      if next.None? {
        RunNoneUp(lines, i + 1);
        return None;
      }
      sh := next.value;
    }
    assert lines[..|lines|] == lines;
    r := Some(sh);
  }

  /** A panic at some line is the outcome of the whole session. */
  lemma {:induction false} RunNoneUp(lines: seq<string>, k: nat)
    requires k <= |lines| && Run(lines[..k]).None?
    ensures Run(lines).None?
    decreases |lines| - k
  {
    if k < |lines| {
      assert lines[..k + 1][..k] == lines[..k];
      RunNoneUp(lines, k + 1);
    } else {
      assert lines[..k] == lines;
    }
  }

  // ---------------------------------------------------------------------
  // Sizes: sums over map values, in any order

  /** Some key of a non-empty map. */
  ghost function AnyKey<V>(m: map<string, V>): (k: string)
    requires |m| > 0
    ensures k in m
  {
    var k :| k in m; k
  }

  ghost function SumValues(m: map<string, int>): int
    decreases |m|
  {
    if |m| == 0 then 0
    else
      var k := AnyKey(m);
      m[k] + SumValues(m - {k})
  }

  /** The sum does not depend on which key is taken first. */
  lemma {:induction false} SumValuesPick(m: map<string, int>, k: string)
    requires k in m
    ensures SumValues(m) == m[k] + SumValues(m - {k})
    decreases |m|
  {
    var j := AnyKey(m);
    if j != k {
      SumValuesPick(m - {j}, k);
      SumValuesPick(m - {k}, j);
      assert m - {j} - {k} == m - {k} - {j};
    }
  }

  /** Removing two keys in either order. */
  lemma MinusCommutes<V>(m: map<string, V>, j: string, k: string)
    ensures m - {j} - {k} == m - {k} - {j}
  {
    assert m - {j} - {k} == m - {j, k};
  }

  /** ds is a part of parent's subdirectories. */
  predicate Under(ds: map<string, Dir>, parent: Dir) {
    forall k | k in ds :: k in parent.dirs && ds[k] == parent.dirs[k]
  }

  /** The total size of the trees in ds. */
  ghost function SumSizes(ds: map<string, Dir>, parent: Dir): int
    requires Under(ds, parent)
    decreases parent, 0, |ds|
  {
    if |ds| == 0 then 0
    else
      var k := AnyKey(ds);
      assert parent.dirs[k] in parent.dirs.Values;
      Size(ds[k]) + SumSizes(ds - {k}, parent)
  }

  /** The total size of the files in d and below. */
  ghost function Size(d: Dir): int
    decreases d, 1
  {
    SumValues(d.files) + SumSizes(d.dirs, d)
  }

  ghost function SumSmalls(ds: map<string, Dir>, parent: Dir): int
    requires Under(ds, parent)
    decreases parent, 0, |ds|
  {
    if |ds| == 0 then 0
    else
      var k := AnyKey(ds);
      assert parent.dirs[k] in parent.dirs.Values;
      Small(ds[k]) + SumSmalls(ds - {k}, parent)
  }

  /** Part 1 for the tree d: the sizes of the directories in it (d
      included) whose size is at most 100000. */
  ghost function Small(d: Dir): int
    decreases d, 1
  {
    SumSmalls(d.dirs, d) + if Size(d) <= SMALL then Size(d) else 0
  }

  ghost function UnionSizes(ds: map<string, Dir>, parent: Dir): multiset<int>
    requires Under(ds, parent)
    decreases parent, 0, |ds|
  {
    if |ds| == 0 then multiset{}
    else
      var k := AnyKey(ds);
      assert parent.dirs[k] in parent.dirs.Values;
      AllSizes(ds[k]) + UnionSizes(ds - {k}, parent)
  }

  /** The sizes of all the directories of the tree d, d included. */
  ghost function AllSizes(d: Dir): multiset<int>
    decreases d, 1
  {
    UnionSizes(d.dirs, d) + multiset{Size(d)}
  }

  lemma {:induction false} SumSizesPick(ds: map<string, Dir>, parent: Dir, k: string)
    requires Under(ds, parent) && k in ds
    ensures SumSizes(ds, parent) == Size(ds[k]) + SumSizes(ds - {k}, parent)
    decreases |ds|
  {
    var j := AnyKey(ds);
    if j != k {
      SumSizesPick(ds - {j}, parent, k);
      SumSizesPick(ds - {k}, parent, j);
      MinusCommutes(ds, j, k);
    }
  }

  lemma {:induction false} SumSmallsPick(ds: map<string, Dir>, parent: Dir, k: string)
    requires Under(ds, parent) && k in ds
    ensures SumSmalls(ds, parent) == Small(ds[k]) + SumSmalls(ds - {k}, parent)
    decreases |ds|
  {
    var j := AnyKey(ds);
    if j != k {
      SumSmallsPick(ds - {j}, parent, k);
      SumSmallsPick(ds - {k}, parent, j);
      MinusCommutes(ds, j, k);
    }
  }

  lemma {:induction false} UnionSizesPick(ds: map<string, Dir>, parent: Dir, k: string)
    requires Under(ds, parent) && k in ds
    ensures UnionSizes(ds, parent) == AllSizes(ds[k]) + UnionSizes(ds - {k}, parent)
    decreases |ds|
  {
    var j := AnyKey(ds);
    if j != k {
      UnionSizesPick(ds - {j}, parent, k);
      UnionSizesPick(ds - {k}, parent, j);
      MinusCommutes(ds, j, k);
    }
  }

  /** The loop over `root.files`. */
  method SumFiles(files: map<string, int>) returns (count: int)
    ensures count == SumValues(files)
  {
    count := 0;
    var rest := files;
    while rest != map[]
      invariant count + SumValues(rest) == SumValues(files)
      decreases |rest|
    {
      var k :| k in rest;
      SumValuesPick(rest, k);
      count := count + rest[k];
      rest := rest - {k};
    }
  }

  /** count_valid_dir_size: returns the size of root's tree and adds part
      1's sum for that tree to the running total. */
  method CountValidDirSize(total: int, root: Dir) returns (newTotal: int, count: int)
    ensures count == Size(root)
    ensures newTotal == total + Small(root)
    decreases root
  {
    count := SumFiles(root.files);
    newTotal := total;
    var rest := root.dirs;
    while rest != map[]
      invariant Under(rest, root)
      invariant count + SumSizes(rest, root) == Size(root)
      invariant newTotal + SumSmalls(rest, root) == total + SumSmalls(root.dirs, root)
      decreases |rest|
    {
      var k :| k in rest;
      var v := rest[k];
      assert v in root.dirs.Values;
      var sub;
      newTotal, sub := CountValidDirSize(newTotal, v);
      SumSizesPick(rest, root, k);
      SumSmallsPick(rest, root, k);
      count := count + sub;
      rest := rest - {k};
    }
    if count <= SMALL {
      newTotal := newTotal + count;
    }
  }

  /** find_dir_to_remove_size: returns the size of root's tree and appends
      the size of every directory in it, root last. */
  method FindDirToRemoveSize(dirs: seq<int>, root: Dir) returns (out: seq<int>, count: int)
    ensures count == Size(root)
    ensures |out| > |dirs| && out[..|dirs|] == dirs && out[|out| - 1] == count
    ensures multiset(out[|dirs|..]) == AllSizes(root)
    decreases root, 2
  {
    count := SumFiles(root.files);
    out, count := ListSubdirs(dirs, dirs, count, root);
    ghost var before := out;
    out := out + [count];
    Appended(dirs, before, out);
  }

  /** find_dir_to_remove_size's loop over the subdirectories: their sizes
      add to the count and their directory sizes follow what was listed. */
  method ListSubdirs(dirs: seq<int>, out0: seq<int>, count0: int, root: Dir) returns (out: seq<int>, count: int)
    requires |out0| >= |dirs| && out0[..|dirs|] == dirs
    ensures |out| >= |dirs| && out[..|dirs|] == dirs
    ensures count == count0 + SumSizes(root.dirs, root)
    ensures multiset(out[|dirs|..]) == multiset(out0[|dirs|..]) + UnionSizes(root.dirs, root)
    decreases root, 1
  {
    count := count0;
    out := out0;
    var rest := root.dirs;
    while rest != map[]
      invariant Under(rest, root)
      invariant |out| >= |dirs| && out[..|dirs|] == dirs
      invariant count + SumSizes(rest, root) == count0 + SumSizes(root.dirs, root)
      invariant multiset(out[|dirs|..]) + UnionSizes(rest, root) == multiset(out0[|dirs|..]) + UnionSizes(root.dirs, root)
      decreases |rest|
    {
      out, count, rest := ListOne(dirs, out, count, rest, root);
    }
  }

  /** One round of find_dir_to_remove_size's loop: one subdirectory's tree
      is listed and leaves the rest. */
  method ListOne(dirs: seq<int>, out: seq<int>, count: int, rest: map<string, Dir>, root: Dir)
    returns (out': seq<int>, count': int, rest': map<string, Dir>)
    requires Under(rest, root) && rest != map[]
    requires |out| >= |dirs| && out[..|dirs|] == dirs
    ensures Under(rest', root) && |rest'| < |rest|
    ensures |out'| >= |dirs| && out'[..|dirs|] == dirs
    ensures count' + SumSizes(rest', root) == count + SumSizes(rest, root)
    ensures multiset(out'[|dirs|..]) + UnionSizes(rest', root) == multiset(out[|dirs|..]) + UnionSizes(rest, root)
    decreases root, 0
  {
    var k :| k in rest;
    var v := rest[k];
    assert v in root.dirs.Values;
    var sub;
    out', sub := FindDirToRemoveSize(out, v);
    Appended(dirs, out, out');
    SumSizesPick(rest, root, k);
    UnionSizesPick(rest, root, k);
    count' := count + sub;
    rest' := rest - {k};
  }

  /** What is appended after `before` adds to what follows `dirs`. */
  lemma Appended(dirs: seq<int>, before: seq<int>, out: seq<int>)
    requires |dirs| <= |before| <= |out| && before[..|dirs|] == dirs && out[..|before|] == before
    ensures out[..|dirs|] == dirs
    ensures multiset(out[|dirs|..]) == multiset(before[|dirs|..]) + multiset(out[|before|..])
  {
    assert out[|dirs|..] == before[|dirs|..] + out[|before|..];
  }

  // ---------------------------------------------------------------------
  // Part 2's selection

  predicate Fits(free: int, d: int) {
    free + d >= NEEDED
  }

  /** The selection loop from `part2` on: a fitting directory replaces the
      choice when it is smaller or nothing is chosen yet (-1). */
  function PickFrom(dirs: seq<int>, free: int, part2: int): int {
    if dirs == [] then part2
    else
      var d := dirs[0];
      PickFrom(dirs[1..], free, if Fits(free, d) && (part2 > d || part2 == -1) then d else part2)
  }

  method ChooseDir(dirs: seq<int>, free: int) returns (part2: int)
    ensures part2 == PickFrom(dirs, free, -1)
  {
    part2 := -1;
    for i := 0 to |dirs|
      invariant PickFrom(dirs, free, -1) == PickFrom(dirs[i..], free, part2)
    {
      assert dirs[i..][1..] == dirs[i + 1..];
      var d := dirs[i];
      if Fits(free, d) && (part2 > d || part2 == -1) {
        part2 := d;
      }
    }
  }

  /** Part 2's promise, over the multiset of directory sizes: the smallest
      fitting size, or -1 when none fits. */
  ghost predicate Part2Meaning(all: multiset<int>, free: int, part2: int) {
    if exists x | x in all :: Fits(free, x) then
      part2 in all && Fits(free, part2) && forall x | x in all && Fits(free, x) :: part2 <= x
    else part2 == -1
  }

  /** With no negative sizes, the loop finds the smallest fitting size. */
  lemma {:induction false} PickFromProps(dirs: seq<int>, free: int, part2: int)
    requires forall i | 0 <= i < |dirs| :: dirs[i] >= 0
    requires part2 == -1 || (part2 >= 0 && Fits(free, part2))
    ensures var p := PickFrom(dirs, free, part2);
      && (p == -1 <==> part2 == -1 && forall i | 0 <= i < |dirs| :: !Fits(free, dirs[i]))
      && (p != -1 ==> Fits(free, p) && (p == part2 || p in dirs))
      && (p != -1 ==> (part2 != -1 ==> p <= part2) && forall i | 0 <= i < |dirs| && Fits(free, dirs[i]) :: p <= dirs[i])
  {
    if dirs != [] {
      var d := dirs[0];
      var next := if Fits(free, d) && (part2 > d || part2 == -1) then d else part2;
      PickFromProps(dirs[1..], free, next);
      var p := PickFrom(dirs, free, part2);
      assert forall i | 1 <= i < |dirs| :: dirs[i] == dirs[1..][i - 1];
      if p != -1 && p in dirs[1..] {
        assert p in dirs;
      }
    }
  }

  lemma PickMeaning(dirs: seq<int>, free: int)
    requires forall i | 0 <= i < |dirs| :: dirs[i] >= 0
    ensures Part2Meaning(multiset(dirs), free, PickFrom(dirs, free, -1))
  {
    PickFromProps(dirs, free, -1);
    var p := PickFrom(dirs, free, -1);
    if exists x | x in multiset(dirs) :: Fits(free, x) {
      var x :| x in multiset(dirs) && Fits(free, x);
      assert x in dirs;
    }
    forall x | x in multiset(dirs) && Fits(free, x)
      ensures p <= x
    {
      assert x in dirs;
    }
  }

  /** No file of the tree has a negative size. */
  predicate NonNeg(d: Dir)
    decreases d
  {
    && (forall k | k in d.files :: d.files[k] >= 0)
    && forall k | k in d.dirs :: (assert d.dirs[k] in d.dirs.Values; NonNeg(d.dirs[k]))
  }

  lemma {:induction false} SumValuesNonNeg(m: map<string, int>)
    requires forall k | k in m :: m[k] >= 0
    ensures SumValues(m) >= 0
    decreases |m|
  {
    if |m| > 0 {
      var k :| k in m;
      SumValuesPick(m, k);
      SumValuesNonNeg(m - {k});
    }
  }

  lemma {:induction false} SumSizesNonNeg(ds: map<string, Dir>, parent: Dir)
    requires Under(ds, parent) && forall k | k in ds :: Size(ds[k]) >= 0
    ensures SumSizes(ds, parent) >= 0
    decreases |ds|
  {
    if |ds| > 0 {
      var k := AnyKey(ds);
      SumSizesNonNeg(ds - {k}, parent);
    }
  }

  lemma {:induction false} UnionSizesMember(ds: map<string, Dir>, parent: Dir, x: int)
    requires Under(ds, parent) && x in UnionSizes(ds, parent)
    ensures exists k | k in ds :: x in AllSizes(ds[k])
    decreases |ds|
  {
    var k := AnyKey(ds);
    if x !in AllSizes(ds[k]) {
      UnionSizesMember(ds - {k}, parent, x);
    }
  }

  /** With no negative file, every directory size is non-negative. */
  lemma {:induction false} AllSizesNonNeg(d: Dir)
    requires NonNeg(d)
    ensures Size(d) >= 0
    ensures forall x | x in AllSizes(d) :: x >= 0
    decreases d
  {
    forall k | k in d.dirs
      ensures Size(d.dirs[k]) >= 0 && forall x | x in AllSizes(d.dirs[k]) :: x >= 0
    {
      assert d.dirs[k] in d.dirs.Values;
      AllSizesNonNeg(d.dirs[k]);
    }
    SumValuesNonNeg(d.files);
    SumSizesNonNeg(d.dirs, d);
    forall x | x in AllSizes(d)
      ensures x >= 0
    {
      if x != Size(d) {
        UnionSizesMember(d.dirs, d, x);
      }
    }
  }

  /** Part 2 over the list of all directory sizes of a tree without
      negative files picks the smallest fitting size. */
  lemma ChooseMeaning(root: Dir, dirs: seq<int>, free: int)
    requires NonNeg(root) && multiset(dirs) == AllSizes(root)
    ensures Part2Meaning(AllSizes(root), free, PickFrom(dirs, free, -1))
  {
    AllSizesNonNeg(root);
    forall i | 0 <= i < |dirs|
      ensures dirs[i] >= 0
    {
      assert dirs[i] in multiset(dirs);
    }
    PickMeaning(dirs, free);
  }

  /** Both answers from the lines, or None when the session panics. */
  method Solve(lines: seq<string>) returns (r: Option<(int, int)>)
    ensures r.Some? <==> Run(lines).Some?
    ensures r.Some? ==> r.value.0 == Small(Run(lines).value.root)
    ensures r.Some? && NonNeg(Run(lines).value.root) ==>
      var root := Run(lines).value.root;
      Part2Meaning(AllSizes(root), DISK - Size(root), r.value.1)
  {
    var sh := Replay(lines);
    if sh.None? {
      return None;
    }
    var root := sh.value.root;
    var part1, _ := CountValidDirSize(0, root);
    var dirs, used := FindDirToRemoveSize([], root);
    assert dirs[0..] == dirs;
    var total := DISK - used;
    var part2 := ChooseDir(dirs, total);
    if NonNeg(root) {
      ChooseMeaning(root, dirs, total);
    }
    r := Some((part1, part2));
  }

  // ---------------------------------------------------------------------
  // Invariants of the session

  /** Every subdirectory carries its own name, the name `cd` pushes. */
  predicate WellNamed(d: Dir)
    decreases d
  {
    forall k | k in d.dirs :: d.dirs[k].name == k && (assert d.dirs[k] in d.dirs.Values; WellNamed(d.dirs[k]))
  }

  /** a holds everything b holds: same name, every file of b with its size,
      every subdirectory of b extended. */
  predicate Extends(a: Dir, b: Dir)
    decreases b
  {
    && a.name == b.name
    && (forall k | k in b.files :: k in a.files && a.files[k] == b.files[k])
    && forall k | k in b.dirs :: k in a.dirs && (assert b.dirs[k] in b.dirs.Values; Extends(a.dirs[k], b.dirs[k]))
  }

  lemma {:induction false} ExtendsRefl(d: Dir)
    ensures Extends(d, d)
    decreases d
  {
    forall k | k in d.dirs
      ensures Extends(d.dirs[k], d.dirs[k])
    {
      assert d.dirs[k] in d.dirs.Values;
      ExtendsRefl(d.dirs[k]);
    }
  }

  /** The replaced directory is found where it was put. */
  lemma {:induction false} ResolveModify(root: Dir, names: seq<string>, nd: Dir)
    requires Resolve(root, names).Some?
    ensures Resolve(ModifyAt(root, names, nd), names) == Some(nd)
    decreases |names|
  {
    if names != [] {
      ResolveModify(root.dirs[names[0]], names[1..], nd);
    }
  }

  /** Replacing a directory by an extension of it extends the whole tree. */
  lemma {:induction false} ModifyExtends(root: Dir, names: seq<string>, nd: Dir)
    requires Resolve(root, names).Some? && Extends(nd, Resolve(root, names).value)
    ensures Extends(ModifyAt(root, names, nd), root)
    decreases |names|
  {
    if names != [] {
      var first := names[0];
      ModifyExtends(root.dirs[first], names[1..], nd);
      forall k | k in root.dirs && k != first
        ensures Extends(root.dirs[k], root.dirs[k])
      {
        assert root.dirs[k] in root.dirs.Values;
        ExtendsRefl(root.dirs[k]);
      }
    }
  }

  /** Replacing a well-named directory by a well-named one keeps the tree
      well named. */
  lemma {:induction false} ModifyWellNamed(root: Dir, names: seq<string>, nd: Dir)
    requires Resolve(root, names).Some? && WellNamed(root) && WellNamed(nd)
    requires names != [] ==> nd.name == names[|names| - 1]
    ensures WellNamed(ModifyAt(root, names, nd))
    decreases |names|
  {
    if names != [] {
      var first := names[0];
      assert root.dirs[first] in root.dirs.Values;
      if |names| > 1 {
        assert names[1..][|names[1..]| - 1] == names[|names| - 1];
        ResolveKeepsName(root.dirs[first], names[1..]);
      }
      ModifyWellNamed(root.dirs[first], names[1..], nd);
      ModifyName(root.dirs[first], names[1..], nd);
      var r := ModifyAt(root, names, nd);
      forall k | k in r.dirs
        ensures r.dirs[k].name == k && WellNamed(r.dirs[k])
      {
        if k != first {
          assert root.dirs[k] in root.dirs.Values;
        }
      }
    }
  }

  /** The directory at a non-empty path of a well-named tree carries the
      last name of the path. */
  lemma {:induction false} ResolveKeepsName(root: Dir, names: seq<string>)
    requires Resolve(root, names).Some? && WellNamed(root) && names != []
    ensures Resolve(root, names).value.name == names[|names| - 1]
    decreases |names|
  {
    assert root.dirs[names[0]] in root.dirs.Values;
    if |names| > 1 {
      ResolveKeepsName(root.dirs[names[0]], names[1..]);
    }
  }

  /** Replacing below the top keeps the top's name; replacing the top
      gives nd's. */
  lemma ModifyName(root: Dir, names: seq<string>, nd: Dir)
    requires Resolve(root, names).Some?
    ensures ModifyAt(root, names, nd).name == if names == [] then nd.name else root.name
  {
  }

  /** What an extension keeps reachable stays reachable. */
  lemma {:induction false} ExtendsResolve(a: Dir, b: Dir, names: seq<string>)
    requires Extends(a, b) && Resolve(b, names).Some?
    ensures Resolve(a, names).Some? && Extends(Resolve(a, names).value, Resolve(b, names).value)
    decreases |names|
  {
    if names != [] {
      assert b.dirs[names[0]] in b.dirs.Values;
      ExtendsResolve(a.dirs[names[0]], b.dirs[names[0]], names[1..]);
    }
  }

  lemma {:induction false} NamesSnoc(stack: seq<string>, x: string)
    ensures Names(stack + [x]) == Names(stack) + if x == "/" then [] else [x]
  {
    if stack != [] {
      assert (stack + [x])[1..] == stack[1..] + [x];
      NamesSnoc(stack[1..], x);
    } else {
      assert [x][1..] == [];
    }
  }

  /** A path one name longer resolves into the named subdirectory. */
  lemma {:induction false} ResolveSnoc(root: Dir, names: seq<string>, x: string)
    requires Resolve(root, names).Some?
    ensures Resolve(root, names + [x]) ==
      if x in Resolve(root, names).value.dirs then Some(Resolve(root, names).value.dirs[x]) else None
    decreases |names|
  {
    if names != [] {
      assert (names + [x])[1..] == names[1..] + [x];
      ResolveSnoc(root.dirs[names[0]], names[1..], x);
    } else {
      assert [x][1..] == [];
    }
  }

  /** The prefix of a resolvable path resolves too. */
  lemma {:induction false} ResolvePrefix(root: Dir, names: seq<string>, n: nat)
    requires n <= |names| && Resolve(root, names).Some?
    ensures Resolve(root, names[..n]).Some?
    decreases |names|
  {
    if n > 0 {
      assert names[..n][1..] == names[1..][..n - 1];
      ResolvePrefix(root.dirs[names[0]], names[1..], n - 1);
    }
  }

  lemma {:induction false} NamesPrefix(stack: seq<string>)
    requires stack != []
    ensures exists n | 0 <= n <= |Names(stack)| :: Names(stack[..|stack| - 1]) == Names(stack)[..n]
  {
    var init := stack[..|stack| - 1];
    assert init + [stack[|stack| - 1]] == stack;
    NamesSnoc(init, stack[|stack| - 1]);
    assert Names(init) == Names(stack)[..|Names(init)|];
  }

  /** Every line keeps the tree well named, only ever adds to it (an
      existing entry is never overwritten) and keeps the stack a path of
      the tree. */
  lemma StepInvariant(sh: Shell, line: string)
    requires WellNamed(sh.root) && GetTopDir(sh.stack, sh.root).Some?
    requires Step(sh, line).Some?
    ensures var next := Step(sh, line).value;
      && WellNamed(next.root)
      && Extends(next.root, sh.root)
      && GetTopDir(next.stack, next.root).Some?
  {
    var next := Step(sh, line).value;
    var text := Words(line);
    var names := Names(sh.stack);
    var cur := GetTopDir(sh.stack, sh.root).value;
    if next.root == sh.root {
      ExtendsRefl(sh.root);
    } else {
      var nd := if text[0] == "dir" then cur.(dirs := cur.dirs[text[1] := NewDir(text[1])])
        else cur.(files := cur.files[text[1] := ParseInt(text[0], I32_MIN, I32_MAX).value]);
      assert next.root == ModifyAt(sh.root, names, nd);
      ExtendsRefl(cur);
      assert Extends(nd, cur);
      ModifyExtends(sh.root, names, nd);
      if names != [] {
        ResolveKeepsName(sh.root, names);
      }
      ResolveWellNamed(sh.root, names);
      assert WellNamed(nd) by {
        forall k | k in nd.dirs
          ensures nd.dirs[k].name == k && WellNamed(nd.dirs[k])
        {
          if k in cur.dirs {
            assert cur.dirs[k] in cur.dirs.Values;
          }
        }
      }
      ModifyWellNamed(sh.root, names, nd);
      ResolveModify(sh.root, names, nd);
      assert next.stack == sh.stack;
    }
    ExtendsResolve(next.root, sh.root, names);
    if next.stack != sh.stack {
      if text[2] == "/" {
        assert Names(["/"]) == [];
      } else if text[2] == ".." {
        NamesPrefix(sh.stack);
        var n :| 0 <= n <= |names| && Names(next.stack) == names[..n];
        ResolvePrefix(sh.root, names, n);
      } else {
        var x := cur.dirs[text[2]].name;
        ResolveWellNamed(sh.root, names);
        assert x == text[2];
        NamesSnoc(sh.stack, x);
        ResolveSnoc(sh.root, names, x);
      }
    }
  }

  /** Every directory of a well-named tree is well named. */
  lemma {:induction false} ResolveWellNamed(root: Dir, names: seq<string>)
    requires WellNamed(root) && Resolve(root, names).Some?
    ensures WellNamed(Resolve(root, names).value)
    decreases |names|
  {
    if names != [] {
      assert root.dirs[names[0]] in root.dirs.Values;
      ResolveWellNamed(root.dirs[names[0]], names[1..]);
    }
  }

  /** The session invariant holds after every line. */
  lemma {:induction false} RunInvariant(lines: seq<string>)
    requires Run(lines).Some?
    ensures WellNamed(Run(lines).value.root)
    ensures GetTopDir(Run(lines).value.stack, Run(lines).value.root).Some?
  {
    if lines != [] {
      var init := lines[..|lines| - 1];
      RunInvariant(init);
      StepInvariant(Run(init).value, lines[|lines| - 1]);
    } else {
      assert Names(["/"]) == [];
    }
  }

  /** `dir x` and `<size> x` only add a name that is absent; when it is
      present the line changes nothing. `ls` changes nothing either. */
  lemma ListingKeeps(sh: Shell, line: string)
    requires GetTopDir(sh.stack, sh.root).Some?
    requires var text := Words(line);
      |text| >= 2 && (
        || (text[0] == "$" && text[1] == "ls")
        || (text[0] == "dir" && text[1] in GetTopDir(sh.stack, sh.root).value.dirs)
        || (text[0] != "$" && text[0] != "dir" && text[1] in GetTopDir(sh.stack, sh.root).value.files))
    ensures Step(sh, line) == Some(sh)
  {
  }

  /** `dir x` for an absent x adds an empty directory x to the current
      directory and nothing else there. */
  lemma DirAdds(sh: Shell, line: string, x: string)
    requires GetTopDir(sh.stack, sh.root).Some?
    requires Words(line) == ["dir", x] && x !in GetTopDir(sh.stack, sh.root).value.dirs
    ensures Step(sh, line).Some?
    ensures var cur := GetTopDir(sh.stack, sh.root).value;
      GetTopDir(Step(sh, line).value.stack, Step(sh, line).value.root) ==
        Some(cur.(dirs := cur.dirs[x := NewDir(x)]))
  {
    var cur := GetTopDir(sh.stack, sh.root).value;
    ResolveModify(sh.root, Names(sh.stack), cur.(dirs := cur.dirs[x := NewDir(x)]));
  }

  /** `cd x` succeeds exactly when x is a subdirectory of the current
      directory, and then enters it. */
  lemma CdEnters(sh: Shell, line: string, x: string)
    requires WellNamed(sh.root) && GetTopDir(sh.stack, sh.root).Some?
    requires Words(line) == ["$", "cd", x] && x != "/" && x != ".."
    ensures Step(sh, line).Some? <==> x in GetTopDir(sh.stack, sh.root).value.dirs
    ensures Step(sh, line).Some? ==>
      Step(sh, line).value.stack == sh.stack + [x] &&
      GetTopDir(Step(sh, line).value.stack, sh.root) == Some(GetTopDir(sh.stack, sh.root).value.dirs[x])
  {
    var cur := GetTopDir(sh.stack, sh.root).value;
    if x in cur.dirs {
      ResolveWellNamed(sh.root, Names(sh.stack));
      NamesSnoc(sh.stack, x);
      ResolveSnoc(sh.root, Names(sh.stack), x);
    }
  }
}
