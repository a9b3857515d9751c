/** Day 7: a shell transcript of `cd` and `ls` commands, replayed to find the
    total size of every directory (its files, its subdirectories' files and
    so on), keyed by the directory's path. */
module Day07 {
  import Text
  import opened Wrappers

  /** A path as its components below the root; [] is "/". */
  type Path = seq<string>

  /** A line of `ls` output that reads as "SIZE NAME"; "dir NAME" lines do
      not, and are dropped when the transcript is read. */
  datatype Entry = File(size: nat, name: string)

  /** A command with its output: `cd DIR`, `ls`, or anything else. */
  datatype Command = Cd(dir: string) | Ls(output: seq<Entry>) | Other

  /** The non-empty pieces of `dir` between slashes, as a path's components. */
  function Components(dir: string): (r: Path)
    ensures forall i :: 0 <= i < |r| ==> r[i] != [] && '/' !in r[i]
  {
    NonEmpty(Text.Split(dir, '/'))
  }

  function NonEmpty(pieces: seq<string>): (r: seq<string>)
    ensures forall i :: 0 <= i < |r| ==> r[i] != [] && r[i] in pieces
  {
    if pieces == [] then []
    else if pieces[0] == [] then NonEmpty(pieces[1..])
    else [pieces[0]] + NonEmpty(pieces[1..])
  }

  /** A name without slashes is a single component. */
  lemma ComponentsOfName(name: string)
    requires name != [] && '/' !in name
    ensures Components(name) == [name]
  {
    assert Text.Split(name, '/') == [name] by { SplitNoSep(name, '/'); }
    assert [name][1..] == [];
    assert NonEmpty([name]) == [name] + NonEmpty([]);
  }

  lemma {:induction false} SplitNoSep(s: string, sep: char)
    requires sep !in s
    ensures Text.Split(s, sep) == [s]
  {
    if |s| > 0 {
      SplitNoSep(s[1..], sep);
      assert [s[0]] + s[1..] == s;
    }
  }

  /** The working directory after `cd dir`: an absolute path replaces it,
      ".." drops its last component (staying at the root), "." keeps it and
      anything else goes one level further down. */
  function ChangeDir(cwd: Path, dir: string): Path {
    if |dir| > 0 && dir[0] == '/' then Components(dir)
    else if dir == ".." then (if cwd == [] then [] else cwd[..|cwd| - 1])
    else if dir == "." then cwd
    else cwd + Components(dir)
  }

  /** `cd ` with an empty argument leaves the model in the same directory;
      the program's `PathBuf::push("")` adds a trailing slash instead. */
  lemma EmptyArgumentStays(cwd: Path)
    ensures ChangeDir(cwd, "") == cwd
  {
    assert Text.Split("", '/') == [[]];
    assert NonEmpty([[]]) == NonEmpty([]);
  }

  /** `cd ..` undoes `cd name` for a plain name. */
  lemma ChangeDirBack(cwd: Path, name: string)
    requires name != [] && '/' !in name && name != "." && name != ".."
    ensures ChangeDir(cwd, name) == cwd + [name]
    ensures ChangeDir(ChangeDir(cwd, name), "..") == cwd
  {
    ComponentsOfName(name);
    assert (cwd + [name])[..|cwd|] == cwd;
  }

  /** `cd /` goes to the root, and `cd ..` only ever goes up. */
  lemma ChangeDirUp(cwd: Path)
    ensures ChangeDir(cwd, "/") == []
    ensures Within(ChangeDir(cwd, ".."), cwd) && |ChangeDir(cwd, "..")| == if cwd == [] then 0 else |cwd| - 1
  {
    assert Text.Split("/", '/') == [[], []];
  }

  /** A directory's recorded size, 0 when it has none yet. */
  function Get(sizes: map<Path, nat>, p: Path): nat {
    if p in sizes then sizes[p] else 0
  }

  /** The sizes after a file of `size` bytes is listed in `cwd`: the working
      directory and each of its ancestors up to the root grow by `size`. */
  function AddSize(sizes: map<Path, nat>, cwd: Path, size: nat): (r: map<Path, nat>)
    ensures forall q {:trigger Get(r, q)} :: Get(r, q) == Get(sizes, q) + if Within(q, cwd) then size else 0
    ensures forall q {:trigger q in r} :: q in r <==> q in sizes || Within(q, cwd)
    decreases |cwd|
  {
    var next := sizes[cwd := Get(sizes, cwd) + size];
    if cwd == [] then next
    else
      var up := AddSize(next, cwd[..|cwd| - 1], size);
      PrefixOfSnoc(cwd);
      up
  }

  /** q is p or one of its ancestors. */
  predicate Within(q: Path, p: Path) {
    |q| <= |p| && p[..|q|] == q
  }

  /** The prefixes of a non-empty path are itself and the prefixes of its
      parent. */
  lemma PrefixOfSnoc(cwd: Path)
    requires cwd != []
    ensures forall q {:trigger Within(q, cwd)} :: Within(q, cwd) <==> q == cwd || Within(q, cwd[..|cwd| - 1])
  {
    forall q | Within(q, cwd) && q != cwd ensures Within(q, cwd[..|cwd| - 1]) {
      assert |q| < |cwd|;
      assert cwd[..|cwd| - 1][..|q|] == cwd[..|q|];
    }
    forall q | Within(q, cwd[..|cwd| - 1]) ensures Within(q, cwd) {
      assert cwd[..|cwd| - 1][..|q|] == cwd[..|q|];
    }
  }

  /** The sizes after every file of an `ls` output is listed in `cwd`. */
  function ListSizes(sizes: map<Path, nat>, cwd: Path, output: seq<Entry>): map<Path, nat>
    decreases |output|
  {
    if output == [] then sizes
    else AddSize(ListSizes(sizes, cwd, output[..|output| - 1]), cwd, output[|output| - 1].size)
  }

  /** The working directory and the directory sizes. */
  datatype Shell = Shell(cwd: Path, sizes: map<Path, nat>)

  function Step(sh: Shell, c: Command): Shell {
    match c
    case Cd(dir) => Shell(ChangeDir(sh.cwd, dir), sh.sizes)
    case Ls(output) => Shell(sh.cwd, ListSizes(sh.sizes, sh.cwd, output))
    case Other => sh
  }

  /** The shell after the commands, starting at the root with no sizes. */
  function Replay(cmds: seq<Command>): Shell
    decreases |cmds|
  {
    if cmds == [] then Shell([], map[])
    else Step(Replay(cmds[..|cmds| - 1]), cmds[|cmds| - 1])
  }

  // ---- What the sizes mean ----

  /** Every recorded directory's ancestors are recorded, each with a total at
      least as large. */
  ghost predicate Nested(sizes: map<Path, nat>) {
    forall p, q {:trigger Within(q, p), sizes[p]} :: p in sizes && Within(q, p) ==> q in sizes && sizes[q] >= sizes[p]
  }

  lemma AddSizeNested(sizes: map<Path, nat>, cwd: Path, size: nat)
    requires Nested(sizes)
    ensures Nested(AddSize(sizes, cwd, size))
  {
    var r := AddSize(sizes, cwd, size);
    forall p, q | p in r && Within(q, p) ensures q in r && r[q] >= r[p] {
      assert Get(r, q) == Get(sizes, q) + (if Within(q, cwd) then size else 0);
      assert Get(r, p) == Get(sizes, p) + (if Within(p, cwd) then size else 0);
      if Within(p, cwd) {
        PrefixTrans(q, p, cwd);
      }
      if p in sizes {
        assert q in sizes && sizes[q] >= sizes[p];
      }
    }
  }

  lemma PrefixTrans(a: Path, b: Path, c: Path)
    requires Within(a, b) && Within(b, c)
    ensures Within(a, c)
  {
    assert c[..|b|][..|a|] == c[..|a|];
  }

  lemma {:induction false} ListSizesNested(sizes: map<Path, nat>, cwd: Path, output: seq<Entry>)
    requires Nested(sizes)
    ensures Nested(ListSizes(sizes, cwd, output))
    decreases |output|
  {
    if output != [] {
      ListSizesNested(sizes, cwd, output[..|output| - 1]);
      AddSizeNested(ListSizes(sizes, cwd, output[..|output| - 1]), cwd, output[|output| - 1].size);
    }
  }

  /** Replaying any transcript records each directory with a total at least
      that of each of its subdirectories. */
  lemma {:induction false} ReplayNested(cmds: seq<Command>)
    ensures Nested(Replay(cmds).sizes)
    decreases |cmds|
  {
    if cmds != [] {
      var before := Replay(cmds[..|cmds| - 1]);
      ReplayNested(cmds[..|cmds| - 1]);
      match cmds[|cmds| - 1]
      case Cd(_) =>
      case Ls(output) => ListSizesNested(before.sizes, before.cwd, output);
      case Other =>
    }
  }

  /** The sum of the sizes of the files listed. */
  function FileTotal(output: seq<Entry>): nat
    decreases |output|
  {
    if output == [] then 0 else FileTotal(output[..|output| - 1]) + output[|output| - 1].size
  }

  /** The sum of the sizes of every file of every `ls` in the transcript. */
  function ListedTotal(cmds: seq<Command>): nat
    decreases |cmds|
  {
    if cmds == [] then 0
    else ListedTotal(cmds[..|cmds| - 1]) + match cmds[|cmds| - 1]
      case Ls(output) => FileTotal(output)
      case _ => 0
  }

  lemma {:induction false} ListSizesRoot(sizes: map<Path, nat>, cwd: Path, output: seq<Entry>)
    ensures Get(ListSizes(sizes, cwd, output), []) == Get(sizes, []) + FileTotal(output)
    decreases |output|
  {
    if output != [] {
      ListSizesRoot(sizes, cwd, output[..|output| - 1]);
      var before := ListSizes(sizes, cwd, output[..|output| - 1]);
      assert Get(AddSize(before, cwd, output[|output| - 1].size), [])
        == Get(before, []) + output[|output| - 1].size;
    }
  }

  /** The root's total is the sum of all listed file sizes. */
  lemma {:induction false} ReplayRoot(cmds: seq<Command>)
    ensures Get(Replay(cmds).sizes, []) == ListedTotal(cmds)
    decreases |cmds|
  {
    if cmds != [] {
      var before := Replay(cmds[..|cmds| - 1]);
      ReplayRoot(cmds[..|cmds| - 1]);
      match cmds[|cmds| - 1]
      case Cd(_) =>
      case Ls(output) => ListSizesRoot(before.sizes, before.cwd, output);
      case Other =>
    }
  }

  // ---- The replay, in place ----

  /** Reads the transcript, moving the working directory and adding each
      listed file to the working directory and its ancestors. */
  method ParseInput(cmds: seq<Command>) returns (dtree: map<Path, nat>)
    ensures dtree == Replay(cmds).sizes
  {
    dtree := map[];
    var cwd: Path := [];
    for i := 0 to |cmds|
      invariant Shell(cwd, dtree) == Replay(cmds[..i])
    {
      assert cmds[..i + 1][..i] == cmds[..i];
      match cmds[i]
      case Cd(dir) =>
        cwd := ChangeDir(cwd, dir);
      case Ls(output) =>
        dtree := List(dtree, cwd, output);
      case Other =>
    }
    assert cmds[..|cmds|] == cmds;
  }

  /** The files of one `ls` output, one after the other. */
  method List(sizes: map<Path, nat>, cwd: Path, output: seq<Entry>) returns (dtree: map<Path, nat>)
    ensures dtree == ListSizes(sizes, cwd, output)
  {
    dtree := sizes;
    for j := 0 to |output|
      invariant dtree == ListSizes(sizes, cwd, output[..j])
    {
      assert output[..j + 1][..j] == output[..j];
      dtree := Propagate(dtree, cwd, output[j].size);
    }
    assert output[..|output|] == output;
  }

  /** Adds `size` to the directory and then to each parent in turn, until
      the path can no longer be popped. */
  method Propagate(sizes: map<Path, nat>, cwd: Path, size: nat) returns (dtree: map<Path, nat>)
    ensures dtree == AddSize(sizes, cwd, size)
  {
    dtree := sizes;
    var p := cwd;
    while true
      invariant AddSize(dtree, p, size) == AddSize(sizes, cwd, size)
      decreases |p|
    {
      var before := dtree;
      dtree := dtree[p := Get(dtree, p) + size];
      if p == [] {
        assert AddSize(before, p, size) == dtree;
        break;
      }
      p := p[..|p| - 1];
    }
  }

  // ---- The two answers ----

  const SmallLimit: nat := 100_000
  const DiskSize: nat := 70_000_000
  const Needed: nat := 30_000_000

  /** The sum of the totals of at most 100000 over the directories in `keys`. */
  ghost function SmallSum(sizes: map<Path, nat>, keys: set<Path>): nat
    requires keys <= sizes.Keys
    decreases |keys|
  {
    if keys == {} then 0
    else
      var k :| k in keys;
      (if sizes[k] <= SmallLimit then sizes[k] else 0) + SmallSum(sizes, keys - {k})
  }

  /** The sum does not depend on the order the directories are taken in. */
  lemma {:induction false} SmallSumRemove(sizes: map<Path, nat>, keys: set<Path>, k: Path)
    requires keys <= sizes.Keys && k in keys
    ensures SmallSum(sizes, keys) == (if sizes[k] <= SmallLimit then sizes[k] else 0) + SmallSum(sizes, keys - {k})
    decreases |keys|
  {
    var j :| j in keys && SmallSum(sizes, keys) ==
      (if sizes[j] <= SmallLimit then sizes[j] else 0) + SmallSum(sizes, keys - {j});
    if j != k {
      SmallSumRemove(sizes, keys - {j}, k);
      SmallSumRemove(sizes, keys - {k}, j);
      assert keys - {j} - {k} == keys - {k} - {j};
    }
  }

  /** Part one: the totals of at most 100000, nested directories included. */
  method SumSmall(sizes: map<Path, nat>) returns (total: nat)
    ensures total == SmallSum(sizes, sizes.Keys)
  {
    total := 0;
    var left := sizes.Keys;
    while left != {}
      invariant left <= sizes.Keys
      invariant total + SmallSum(sizes, left) == SmallSum(sizes, sizes.Keys)
      decreases |left|
    {
      var k :| k in left;
      SmallSumRemove(sizes, left, k);
      if sizes[k] <= SmallLimit {
        total := total + sizes[k];
      }
      left := left - {k};
    }
  }

  /** Freeing a directory of total v leaves enough room when the root's total
      minus v is below 40000000. */
  predicate Frees(root: nat, v: nat) {
    root - v < DiskSize - Needed
  }

  /** Part two: the smallest total whose removal leaves enough room, or None
      when no directory is known. */
  method SmallestFreeing(sizes: map<Path, nat>, root: nat) returns (r: Option<nat>)
    ensures r.None? <==> forall p :: p in sizes ==> !Frees(root, sizes[p])
    ensures r.Some? ==> exists p :: p in sizes && sizes[p] == r.value && Frees(root, r.value)
    ensures r.Some? ==> forall p :: p in sizes && Frees(root, sizes[p]) ==> r.value <= sizes[p]
  {
    r := None;
    var left := sizes.Keys;
    while left != {}
      invariant left <= sizes.Keys
      invariant r.None? <==> forall p :: p in sizes && p !in left ==> !Frees(root, sizes[p])
      invariant r.Some? ==> exists p :: p in sizes && sizes[p] == r.value && Frees(root, r.value)
      invariant r.Some? ==> forall p :: p in sizes && p !in left && Frees(root, sizes[p]) ==> r.value <= sizes[p]
      decreases |left|
    {
      var k :| k in left;
      var v := sizes[k];
      if Frees(root, v) && (r.None? || v < r.value) {
        r := Some(v);
      }
      left := left - {k};
    }
  }

  method SolvePartOne(cmds: seq<Command>) returns (r: nat)
    ensures var sizes := Replay(cmds).sizes; r == SmallSum(sizes, sizes.Keys)
  {
    var dtree := ParseInput(cmds);
    r := SumSmall(dtree);
  }

  /** The root must have a total (`unwrap` on the root's entry); the
      subtraction cannot go below zero because the root's total is the
      largest. */
  method SolvePartTwo(cmds: seq<Command>) returns (r: Result<nat>)
    ensures r.Ok? <==> [] in Replay(cmds).sizes
    ensures r.Ok? ==> var sizes := Replay(cmds).sizes;
      && (exists p :: p in sizes && sizes[p] == r.value)
      && Frees(sizes[[]], r.value)
      && forall p :: p in sizes && Frees(sizes[[]], sizes[p]) ==> r.value <= sizes[p]
  {
    var dtree := ParseInput(cmds);
    if [] !in dtree {
      return Err("no root directory");
    }
    var root := dtree[[]];
    ReplayNested(cmds);
    assert Frees(root, root);
    var best := SmallestFreeing(dtree, root);
    r := Ok(best.value);
  }

  /** The root's total bounds every other, so `root - v` is never negative in
      part two. */
  lemma RootLargest(cmds: seq<Command>, p: Path)
    requires p in Replay(cmds).sizes
    ensures [] in Replay(cmds).sizes && Replay(cmds).sizes[[]] >= Replay(cmds).sizes[p]
  {
    ReplayNested(cmds);
    assert Within([], p);
  }

  /** Listing several files at once adds their total, as one file would. */
  lemma {:induction false} ListSizesTotal(sizes: map<Path, nat>, cwd: Path, output: seq<Entry>)
    requires output != []
    ensures ListSizes(sizes, cwd, output) == AddSize(sizes, cwd, FileTotal(output))
    decreases |output|
  {
    var n := |output|;
    if n > 1 {
      ListSizesTotal(sizes, cwd, output[..n - 1]);
      var a := AddSize(sizes, cwd, FileTotal(output[..n - 1]));
      var b := AddSize(a, cwd, output[n - 1].size);
      var c := AddSize(sizes, cwd, FileTotal(output));
      forall q ensures q in b <==> q in c {}
      forall q | q in b ensures b[q] == c[q] {
        assert Get(b, q) == Get(c, q);
      }
    } else {
      assert output[..0] == [];
    }
  }

  // ---- The example of the puzzle statement ----

  const ListRoot: seq<Entry> := [File(14848514, "b.txt"), File(8504156, "c.dat")]
  const ListA: seq<Entry> := [File(29116, "f"), File(2557, "g"), File(62596, "h.lst")]
  const ListE: seq<Entry> := [File(584, "i")]
  const ListD: seq<Entry> :=
    [File(4060174, "j"), File(8033020, "d.log"), File(5626152, "d.ext"), File(7214296, "k")]

  /** The transcript, built up one command at a time. */
  const Example2: seq<Command> := [Cd("/"), Ls(ListRoot)]
  const Example4: seq<Command> := Example2 + [Cd("a"), Ls(ListA)]
  const Example6: seq<Command> := Example4 + [Cd("e"), Ls(ListE)]
  const Example9: seq<Command> := Example6 + [Cd(".."), Cd(".."), Cd("d")]
  const ExampleCommands: seq<Command> := Example9 + [Ls(ListD)]

  const ExampleSizes: map<Path, nat> :=
    map[[] := 48381165, ["a"] := 94853, ["a", "e"] := 584, ["d"] := 24933642]

  lemma ReplaySnoc(cmds: seq<Command>, c: Command)
    ensures Replay(cmds + [c]) == Step(Replay(cmds), c)
  {
    assert (cmds + [c])[..|cmds|] == cmds;
  }

  lemma ReplayTwo(cmds: seq<Command>, c: Command, d: Command)
    ensures Replay(cmds + [c, d]) == Step(Step(Replay(cmds), c), d)
  {
    ReplaySnoc(cmds, c);
    ReplaySnoc(cmds + [c], d);
    assert cmds + [c] + [d] == cmds + [c, d];
  }

  /** FileTotal read from the front. */
  lemma {:induction false} FileTotalCons(x: Entry, s: seq<Entry>)
    ensures FileTotal([x] + s) == x.size + FileTotal(s)
    decreases |s|
  {
    if s == [] {
      assert ([x] + s)[..0] == [];
    } else {
      FileTotalCons(x, s[..|s| - 1]);
      assert ([x] + s)[..|s|] == [x] + s[..|s| - 1];
    }
  }

  lemma ExampleTotals()
    ensures FileTotal(ListRoot) == 23352670
    ensures FileTotal(ListA) == 94269
    ensures FileTotal(ListE) == 584
    ensures FileTotal(ListD) == 24933642
  {
    var none: seq<Entry> := [];
    FileTotalCons(ListE[0], none);
    assert ListE == [ListE[0]] + none;
    TotalOfTwo(ListRoot);
    TotalOfThree(ListA);
    TotalOfFour(ListD);
  }

  lemma TotalOfTwo(s: seq<Entry>)
    requires |s| == 2
    ensures FileTotal(s) == s[0].size + s[1].size
  {
    var none: seq<Entry> := [];
    FileTotalCons(s[1], none);
    FileTotalCons(s[0], [s[1]]);
    assert s == [s[0]] + [s[1]];
  }

  lemma TotalOfThree(s: seq<Entry>)
    requires |s| == 3
    ensures FileTotal(s) == s[0].size + s[1].size + s[2].size
  {
    TotalOfTwo(s[1..]);
    FileTotalCons(s[0], s[1..]);
    assert s == [s[0]] + s[1..];
  }

  lemma TotalOfFour(s: seq<Entry>)
    requires |s| == 4
    ensures FileTotal(s) == s[0].size + s[1].size + s[2].size + s[3].size
  {
    TotalOfThree(s[1..]);
    FileTotalCons(s[0], s[1..]);
    assert s == [s[0]] + s[1..];
  }

  /** One more level of AddSize. */
  lemma AddSizeUp(sizes: map<Path, nat>, cwd: Path, size: nat)
    requires cwd != []
    ensures AddSize(sizes, cwd, size) == AddSize(sizes[cwd := Get(sizes, cwd) + size], cwd[..|cwd| - 1], size)
  {
  }

  lemma AddSizeAtRoot(sizes: map<Path, nat>, size: nat)
    ensures AddSize(sizes, [], size) == sizes[[] := Get(sizes, []) + size]
  {
  }

  /** An `ls` step adds the listed total to the working directory and up. */
  lemma StepLs(sh: Shell, output: seq<Entry>, after: map<Path, nat>)
    requires output != [] && after == AddSize(sh.sizes, sh.cwd, FileTotal(output))
    ensures Step(sh, Ls(output)) == Shell(sh.cwd, after)
  {
    ListSizesTotal(sh.sizes, sh.cwd, output);
  }

  lemma ExampleStart()
    ensures Replay(Example2) == Shell([], map[[] := 23352670])
  {
    assert Text.Split("/", '/') == [[], []];
    assert Components("/") == [];
    ReplayTwo([], Cd("/"), Ls(ListRoot));
    assert [] + [Cd("/"), Ls(ListRoot)] == Example2;
    ExampleTotals();
    AddSizeAtRoot(map[], 23352670);
    StepLs(Shell([], map[]), ListRoot, map[[] := 23352670]);
  }

  lemma ExampleAddA()
    ensures AddSize(map[[] := 23352670], ["a"], 94269) == map[[] := 23446939, ["a"] := 94269]
  {
    var m: map<Path, nat> := map[[] := 23352670];
    AddSizeUp(m, ["a"], 94269);
    assert ["a"][..0] == [];
    AddSizeAtRoot(m[["a"] := 94269], 94269);
  }

  lemma ExampleIntoA()
    ensures Replay(Example4) == Shell(["a"], map[[] := 23446939, ["a"] := 94269])
  {
    ExampleStart();
    ComponentsOfName("a");
    assert ChangeDir([], "a") == ["a"];
    ReplayTwo(Example2, Cd("a"), Ls(ListA));
    ExampleTotals();
    ExampleAddA();
    StepLs(Shell(["a"], map[[] := 23352670]), ListA, map[[] := 23446939, ["a"] := 94269]);
  }

  lemma ExampleAddE()
    ensures AddSize(map[[] := 23446939, ["a"] := 94269], ["a", "e"], 584)
      == map[[] := 23447523, ["a"] := 94853, ["a", "e"] := 584]
  {
    var m: map<Path, nat> := map[[] := 23446939, ["a"] := 94269];
    AddSizeUp(m, ["a", "e"], 584);
    var m1 := m[["a", "e"] := 584];
    assert ["a", "e"][..1] == ["a"];
    AddSizeUp(m1, ["a"], 584);
    assert ["a"][..0] == [];
    AddSizeAtRoot(m1[["a"] := 94853], 584);
  }

  lemma ExampleIntoE()
    ensures Replay(Example6) ==
      Shell(["a", "e"], map[[] := 23447523, ["a"] := 94853, ["a", "e"] := 584])
  {
    ExampleIntoA();
    ComponentsOfName("e");
    assert ChangeDir(["a"], "e") == ["a", "e"];
    ReplayTwo(Example4, Cd("e"), Ls(ListE));
    ExampleTotals();
    ExampleAddE();
    StepLs(Shell(["a", "e"], map[[] := 23446939, ["a"] := 94269]), ListE,
      map[[] := 23447523, ["a"] := 94853, ["a", "e"] := 584]);
  }

  lemma ExampleIntoD()
    ensures Replay(Example9) ==
      Shell(["d"], map[[] := 23447523, ["a"] := 94853, ["a", "e"] := 584])
  {
    ExampleIntoE();
    ComponentsOfName("d");
    assert ChangeDir(["a", "e"], "..") == ["a"];
    assert ChangeDir(["a"], "..") == [];
    assert ChangeDir([], "d") == ["d"];
    ReplayTwo(Example6, Cd(".."), Cd(".."));
    ReplaySnoc(Example6 + [Cd(".."), Cd("..")], Cd("d"));
    assert Example6 + [Cd(".."), Cd("..")] + [Cd("d")] == Example9;
  }

  lemma ExampleAddD()
    ensures AddSize(map[[] := 23447523, ["a"] := 94853, ["a", "e"] := 584], ["d"], 24933642)
      == ExampleSizes
  {
    var m: map<Path, nat> := map[[] := 23447523, ["a"] := 94853, ["a", "e"] := 584];
    AddSizeUp(m, ["d"], 24933642);
    assert ["d"][..0] == [];
    AddSizeAtRoot(m[["d"] := 24933642], 24933642);
  }

  /** The transcript of the example records four directories. */
  lemma ExampleReplay()
    ensures Replay(ExampleCommands).sizes == ExampleSizes
  {
    ExampleIntoD();
    ReplaySnoc(Example9, Ls(ListD));
    ExampleTotals();
    ExampleAddD();
    StepLs(Shell(["d"], map[[] := 23447523, ["a"] := 94853, ["a", "e"] := 584]), ListD, ExampleSizes);
  }

  /** Part one of the example: the directories e and a are small enough. */
  lemma ExamplePartOne()
    ensures SmallSum(ExampleSizes, ExampleSizes.Keys) == 95437
  {
    var m := ExampleSizes;
    var k0, k1, k2, k3: Path := [], ["a"], ["a", "e"], ["d"];
    assert m.Keys == {k0, k1, k2, k3};
    SmallSumRemove(m, {k0, k1, k2, k3}, k0);
    assert {k0, k1, k2, k3} - {k0} == {k1, k2, k3};
    SmallSumRemove(m, {k1, k2, k3}, k1);
    assert {k1, k2, k3} - {k1} == {k2, k3};
    SmallSumRemove(m, {k2, k3}, k2);
    assert {k2, k3} - {k2} == {k3};
    SmallSumRemove(m, {k3}, k3);
    assert {k3} - {k3} == {};
  }

  /** Part two of the example: d is the smallest directory whose removal
      frees enough room, so the only answer part two allows is its total. */
  lemma ExamplePartTwo(v: nat)
    requires exists p :: p in ExampleSizes && ExampleSizes[p] == v
    requires Frees(ExampleSizes[[]], v)
    requires forall p :: p in ExampleSizes && Frees(ExampleSizes[[]], ExampleSizes[p]) ==> v <= ExampleSizes[p]
    ensures v == 24933642
  {
    var d: Path := ["d"];
    assert d in ExampleSizes && Frees(ExampleSizes[[]], ExampleSizes[d]);
  }
}
