/** The index of ailab/data/multi_zip_reader.py: several zip archives read as one
    dataset. Every member is listed under "<zip base name>/<normalised member name>", each
    archive keeps a map from those names to its member infos, and a nested tree of names
    is built from the list. Archives are given by their member infos (opening them and
    reading members is I/O); paths use the POSIX separator '/'. */
module MultiZip {

  datatype Option<T> = None | Some(value: T)

  datatype Result<T> = Ok(value: T) | Err(msg: string)

  /** The part of a zipfile.ZipInfo the index uses: the member name, and the offset of its
      header, which tells two members of the same name apart. */
  datatype ZipInfo = ZipInfo(filename: string, offset: nat)

  const Sep: char := '/'

  // ---------------------------------------------------------------------------------
  // Python string and path helpers

  /** str.split(c): never empty; the text between separators, in order. */
  function Split(s: string, c: char): (r: seq<string>)
    ensures |r| >= 1
    decreases |s|
  {
    if s == [] then [""]
    else if s[0] == c then [""] + Split(s[1..], c)
    else
      var rest := Split(s[1..], c);
      [[s[0]] + rest[0]] + rest[1..]
  }

  /** c.join(parts). */
  function Join(parts: seq<string>, c: char): string
    decreases |parts|
  {
    if parts == [] then ""
    else if |parts| == 1 then parts[0]
    else parts[0] + [c] + Join(parts[1..], c)
  }

  /** Splitting a name without the separator gives the name itself. */
  lemma {:induction false} SplitPlain(s: string, c: char)
    requires c !in s
    ensures Split(s, c) == [s]
    decreases |s|
  {
    if s != [] {
      assert s[0] in s;
      assert forall x :: x in s[1..] ==> x in s;
      SplitPlain(s[1..], c);
      assert [s[0]] + s[1..] == s;
    }
  }

  /** Splitting at a separator splits the two sides independently. */
  lemma {:induction false} SplitAppend(a: string, b: string, c: char)
    requires c !in a
    ensures Split(a + [c] + b, c) == [a] + Split(b, c)
    decreases |a|
  {
    if a == [] {
      assert [] + [c] + b == [c] + b;
      assert ([c] + b)[1..] == b;
    } else {
      assert (a + [c] + b)[1..] == a[1..] + [c] + b;
      assert forall x :: x in a[1..] ==> x in a;
      SplitAppend(a[1..], b, c);
      assert [a[0]] + a[1..] == a;
    }
  }

  /** One component of os.path.normpath's loop over the split path. */
  function NormStep(acc: seq<string>, comp: string, absolute: bool): seq<string>
  {
    if comp == "" || comp == "." then acc
    else if comp != ".." || (!absolute && acc == []) || (acc != [] && acc[|acc| - 1] == "..") then acc + [comp]
    else if acc != [] then acc[..|acc| - 1]
    else acc
  }

  function NormComps(comps: seq<string>, absolute: bool, acc: seq<string>): seq<string>
    decreases |comps|
  {
    if comps == [] then acc else NormComps(comps[1..], absolute, NormStep(acc, comps[0], absolute))
  }

  /** posixpath.normpath: empty and "." components dropped, ".." cancels the component
      before it, one or two leading slashes kept (three or more become one), "." for
      nothing left. */
  function Normpath(path: string): (r: string)
    ensures r != ""
  {
    if path == "" then "."
    else
      var slashes := if |path| >= 2 && path[..2] == "//" && !(|path| >= 3 && path[2] == '/') then 2
                     else if path[0] == '/' then 1 else 0;
      var r := seq(slashes, _ => '/') + Join(NormComps(Split(path, Sep), slashes > 0, []), Sep);
      if r == "" then "." else r
  }

  /** A plain name is already normal. */
  lemma NormpathPlain(s: string)
    requires s != "" && s != "." && s != ".." && Sep !in s
    ensures Normpath(s) == s
  {
    SplitPlain(s, Sep);
    assert NormComps([s], false, []) == [s];
  }

  /** Empty and "." components and trailing slashes are dropped ... */
  lemma NormpathDropsEmpty()
    ensures Normpath("a/./b//") == "a/b"
  {
    NormpathRelative("a/./b//");
    SplitDots();
    NormCompsDots();
    JoinPair("a", "b", Sep);
    assert "a" + [Sep] + "b" == "a/b";
  }

  lemma JoinPair(a: string, b: string, c: char)
    ensures Join([a, b], c) == a + [c] + b
  {
    assert [a, b][1..] == [b];
  }

  lemma NormCompsDots()
    ensures NormComps(["a", ".", "b", "", ""], false, []) == ["a", "b"]
  {
    assert ["a", ".", "b", "", ""][1..] == [".", "b", "", ""];
    assert [".", "b", "", ""][1..] == ["b", "", ""];
    assert ["b", "", ""][1..] == ["", ""];
    assert ["", ""][1..] == [""];
    assert [""][1..] == [];
    assert NormStep([], "a", false) == ["a"];
    assert NormStep(["a"], "b", false) == ["a", "b"];
    calc {
      NormComps(["a", ".", "b", "", ""], false, []);
      NormComps([".", "b", "", ""], false, ["a"]);
      NormComps(["b", "", ""], false, ["a"]);
      NormComps(["", ""], false, ["a", "b"]);
      NormComps([""], false, ["a", "b"]);
      NormComps([], false, ["a", "b"]);
    }
  }

  /** A path that does not start with a slash is its normalised components, joined. */
  lemma NormpathRelative(path: string)
    requires path != "" && path[0] != Sep
    ensures var r := Join(NormComps(Split(path, Sep), false, []), Sep);
            Normpath(path) == if r == "" then "." else r
  {
    if |path| >= 2 {
      assert path[..2][0] == path[0];
    }
    assert seq(0, _ => '/') == [];
  }

  /** ... and ".." cancels the component before it. */
  lemma NormpathParent()
    ensures Normpath("a/../b") == "b"
  {
    NormpathRelative("a/../b");
    SplitParent();
    assert NormComps(["b"], false, []) == ["b"];
    assert NormStep(["a"], "..", false) == [] by {
      assert ["a"][|["a"]| - 1] == "a" != "..";
      assert ["a"][..0] == [];
    }
    assert ["..", "b"][1..] == ["b"];
    assert NormComps(["..", "b"], false, ["a"]) == ["b"];
    assert NormComps(["a", "..", "b"], false, []) == ["b"];
  }

  lemma SplitDots()
    ensures Split("a/./b//", Sep) == ["a", ".", "b", "", ""]
  {
    SplitDotsTail();
    SplitAppend("a", "./b//", Sep);
    assert "a/./b//" == "a" + [Sep] + "./b//";
  }

  lemma SplitDotsTail()
    ensures Split("./b//", Sep) == [".", "b", "", ""]
  {
    assert Split("/", Sep) == ["", ""] by {
      assert "/"[1..] == "";
    }
    assert Split("b//", Sep) == ["b", "", ""] by {
      SplitAppend("b", "/", Sep);
      assert "b//" == "b" + [Sep] + "/";
    }
    SplitAppend(".", "b//", Sep);
    assert "./b//" == "." + [Sep] + "b//";
  }

  lemma SplitParent()
    ensures Split("a/../b", Sep) == ["a", "..", "b"]
  {
    SplitAppend("a", "../b", Sep);
    SplitAppend("..", "b", Sep);
    SplitPlain("b", Sep);
    assert "a/../b" == "a" + [Sep] + "../b" && "../b" == ".." + [Sep] + "b";
  }

  /** The last component of a path: zipfiles[i].split(os.sep)[-1]. */
  function BaseName(path: string): string
  {
    var parts := Split(path, Sep);
    parts[|parts| - 1]
  }

  // ---------------------------------------------------------------------------------
  // Parameter normalisation

  /** The zip paths the reader opens: zipfiles when given (zipfile is then ignored),
      otherwise [zipfile], otherwise a RuntimeError; each normalised. */
  function ZipPaths(zipfiles: Option<seq<string>>, zipfile: Option<string>): (r: Result<seq<string>>)
  {
    var given :=
      if zipfiles.None? && zipfile.Some? then Some([zipfile.value])
      else if zipfile.None? && zipfiles.None? then None
      else zipfiles;
    match given
    case None => Err("You must either specify zipfile or zipfiles.")
    case Some(paths) => Ok(seq(|paths|, k requires 0 <= k < |paths| => Normpath(paths[k])))
  }

  /** Neither parameter is an error; zipfile alone is a one-element list; zipfiles wins. */
  lemma ZipPathsCases(zipfiles: Option<seq<string>>, zipfile: Option<string>)
    ensures ZipPaths(zipfiles, zipfile).Err? <==> zipfiles.None? && zipfile.None?
    ensures zipfiles.None? && zipfile.Some? ==> ZipPaths(zipfiles, zipfile) == Ok([Normpath(zipfile.value)])
    ensures zipfiles.Some? ==> ZipPaths(zipfiles, zipfile) == ZipPaths(zipfiles, None)
    ensures zipfiles.Some? ==> |ZipPaths(zipfiles, zipfile).value| == |zipfiles.value|
  {
    if zipfiles.None? && zipfile.Some? {
      var one := [zipfile.value];
      assert seq(|one|, k requires 0 <= k < |one| => Normpath(one[k])) == [Normpath(zipfile.value)];
    }
  }

  // ---------------------------------------------------------------------------------
  // File list and infos

  /** The name a member is listed under. */
  function EntryName(zipName: string, info: ZipInfo): string
  {
    zipName + [Sep] + Normpath(info.filename)
  }

  /** The names of one archive's members, in order. */
  function ZipEntries(zipName: string, members: seq<ZipInfo>): (r: seq<string>)
    ensures |r| == |members|
    ensures forall k :: 0 <= k < |members| ==> r[k] == EntryName(zipName, members[k])
  {
    seq(|members|, k requires 0 <= k < |members| => EntryName(zipName, members[k]))
  }

  /** Listing one more member appends its name. */
  lemma ZipEntriesSnoc(zipName: string, members: seq<ZipInfo>, j: nat)
    requires j < |members|
    ensures ZipEntries(zipName, members[..j + 1]) == ZipEntries(zipName, members[..j]) + [EntryName(zipName, members[j])]
  {
    var a := ZipEntries(zipName, members[..j + 1]);
    var b := ZipEntries(zipName, members[..j]) + [EntryName(zipName, members[j])];
    forall k | 0 <= k < |a|
      ensures a[k] == b[k]
    {
      if k < j {
        assert members[..j + 1][k] == members[..j][k];
      }
    }
  }

  /** The whole file list: the entries of each archive, archive after archive. */
  function FileList(paths: seq<string>, archives: seq<seq<ZipInfo>>): seq<string>
    requires |archives| == |paths|
    decreases |paths|
  {
    if paths == [] then []
    else FileList(paths[..|paths| - 1], archives[..|paths| - 1])
         + ZipEntries(BaseName(paths[|paths| - 1]), archives[|paths| - 1])
  }

  /** The info map of one archive: built member by member, so a later member of the same
      name overwrites an earlier one. */
  function InfoMap(zipName: string, members: seq<ZipInfo>): (m: map<string, ZipInfo>)
    decreases |members|
  {
    if members == [] then map[]
    else InfoMap(zipName, members[..|members| - 1])[EntryName(zipName, members[|members| - 1]) := members[|members| - 1]]
  }

  /** A name is a key of an archive's info map exactly when one of its members is listed
      under it ... */
  lemma {:induction false} InfoMapKeys(zipName: string, members: seq<ZipInfo>, name: string)
    ensures name in InfoMap(zipName, members) <==> name in ZipEntries(zipName, members)
    decreases |members|
  {
    if members != [] {
      var n := |members| - 1;
      InfoMapKeys(zipName, members[..n], name);
      ZipEntriesSnoc(zipName, members, n);
      assert members[..n + 1] == members;
    }
  }

  /** ... and it maps to the last such member. */
  lemma {:induction false} InfoMapLastWins(zipName: string, members: seq<ZipInfo>, j: nat)
    requires j < |members|
    requires forall k :: j < k < |members| ==> EntryName(zipName, members[k]) != EntryName(zipName, members[j])
    ensures EntryName(zipName, members[j]) in InfoMap(zipName, members)
    ensures InfoMap(zipName, members)[EntryName(zipName, members[j])] == members[j]
    decreases |members|
  {
    var n := |members| - 1;
    var name := EntryName(zipName, members[j]);
    assert InfoMap(zipName, members) == InfoMap(zipName, members[..n])[EntryName(zipName, members[n]) := members[n]];
    if j < n {
      assert members[..n][j] == members[j];
      assert forall k :: j < k < n ==> members[..n][k] == members[k];
      InfoMapLastWins(zipName, members[..n], j);
      assert EntryName(zipName, members[n]) != name;
    }
  }

  /** The info maps of all archives. */
  function Infos(paths: seq<string>, archives: seq<seq<ZipInfo>>): (r: seq<map<string, ZipInfo>>)
    requires |archives| == |paths|
    ensures |r| == |paths|
  {
    seq(|paths|, i requires 0 <= i < |paths| => InfoMap(BaseName(paths[i]), archives[i]))
  }

  /** Adding one archive appends its entries to the list and its map to the infos. */
  lemma FileListSnoc(paths: seq<string>, archives: seq<seq<ZipInfo>>, i: nat)
    requires |archives| == |paths| && i < |paths|
    ensures FileList(paths[..i + 1], archives[..i + 1]) == FileList(paths[..i], archives[..i]) + ZipEntries(BaseName(paths[i]), archives[i])
    ensures Infos(paths[..i + 1], archives[..i + 1]) == Infos(paths[..i], archives[..i]) + [InfoMap(BaseName(paths[i]), archives[i])]
  {
    assert paths[..i + 1][..i] == paths[..i] && archives[..i + 1][..i] == archives[..i];
  }

  /** A name is in the file list exactly when some archive's info map has it. */
  lemma {:induction false} ListedIffInfo(paths: seq<string>, archives: seq<seq<ZipInfo>>, name: string)
    requires |archives| == |paths|
    ensures name in FileList(paths, archives) <==> exists i :: 0 <= i < |paths| && name in Infos(paths, archives)[i]
    decreases |paths|
  {
    if paths != [] {
      var n := |paths| - 1;
      assert paths[..n + 1] == paths && archives[..n + 1] == archives;
      FileListSnoc(paths, archives, n);
      ListedIffInfo(paths[..n], archives[..n], name);
      InfoMapKeys(BaseName(paths[n]), archives[n], name);
      var infos, front := Infos(paths, archives), Infos(paths[..n], archives[..n]);
      assert name in ZipEntries(BaseName(paths[n]), archives[n]) <==> name in infos[n];
      if name in FileList(paths[..n], archives[..n]) {
        var i :| 0 <= i < n && name in front[i];
        assert name in infos[i];
      }
      if exists i :: 0 <= i < |paths| && name in infos[i] {
        var i :| 0 <= i < |paths| && name in infos[i];
        if i < n {
          assert name in front[i];
        }
      }
    }
  }

  /** A member name repeated in one archive is listed twice but keeps only the later info. */
  lemma RepeatedMember(zipName: string, a: ZipInfo, b: ZipInfo)
    requires a.filename == b.filename && a != b
    ensures ZipEntries(zipName, [a, b]) == [EntryName(zipName, a), EntryName(zipName, a)]
    ensures InfoMap(zipName, [a, b]) == map[EntryName(zipName, a) := b]
  {
    assert [a, b][..1] == [a] && [a][..0] == [];
    assert EntryName(zipName, b) == EntryName(zipName, a);
    assert InfoMap(zipName, [a]) == map[EntryName(zipName, a) := a];
    assert ZipEntries(zipName, [a, b]) == [EntryName(zipName, a), EntryName(zipName, a)];
  }

  // ---------------------------------------------------------------------------------
  // File tree

  /** A folder of the tree: every name maps to another folder; a file is an empty one. */
  datatype Tree = Node(children: map<string, Tree>)

  const Empty: Tree := Node(map[])

  /** The cursor walk of one entry: descend through the folders, creating each one only
      when it is missing, then store an empty node under the file name, replacing whatever
      was there. */
  function Insert(t: Tree, folders: seq<string>, leaf: string): Tree
    decreases |folders|
  {
    if folders == [] then Node(t.children[leaf := Empty])
    else
      var child := if folders[0] in t.children then t.children[folders[0]] else Empty;
      Node(t.children[folders[0] := Insert(child, folders[1..], leaf)])
  }

  /** The components of a listed name: filename.split(os.sep). */
  function Components(name: string): (r: seq<string>)
    ensures |r| >= 1
  {
    Split(name, Sep)
  }

  function InsertEntry(t: Tree, name: string): Tree
  {
    var comps := Components(name);
    Insert(t, comps[..|comps| - 1], comps[|comps| - 1])
  }

  /** The tree built from a list of names, in order. */
  function TreeOf(names: seq<string>): Tree
    decreases |names|
  {
    if names == [] then Empty else InsertEntry(TreeOf(names[..|names| - 1]), names[|names| - 1])
  }

  /** A root-to-node path of names. */
  predicate HasPath(t: Tree, p: seq<string>)
    decreases |p|
  {
    p == [] || (p[0] in t.children && HasPath(t.children[p[0]], p[1..]))
  }

  /** The node at the end of a path. */
  function Subtree(t: Tree, p: seq<string>): Tree
    requires HasPath(t, p)
    decreases |p|
  {
    if p == [] then t else Subtree(t.children[p[0]], p[1..])
  }

  /** q is a proper prefix of p. */
  predicate ProperPrefix(q: seq<string>, p: seq<string>)
  {
    |q| < |p| && p[..|q|] == q
  }

  /** An inserted entry is a path of the tree that ends in an empty node. */
  lemma {:induction false} InsertMakesPath(t: Tree, folders: seq<string>, leaf: string)
    ensures HasPath(Insert(t, folders, leaf), folders + [leaf])
    ensures Subtree(Insert(t, folders, leaf), folders + [leaf]) == Empty
    decreases |folders|
  {
    var p := folders + [leaf];
    if folders == [] {
      assert p == [leaf] && p[1..] == [];
    } else {
      var child := if folders[0] in t.children then t.children[folders[0]] else Empty;
      InsertMakesPath(child, folders[1..], leaf);
      assert p[0] == folders[0] && p[1..] == folders[1..] + [leaf];
    }
  }

  /** Inserting keeps every path of the tree except those running through the replaced
      node: folders that exist are reused, never rebuilt. */
  lemma {:induction false} InsertKeepsPaths(t: Tree, folders: seq<string>, leaf: string, p: seq<string>)
    requires HasPath(t, p) && !ProperPrefix(folders + [leaf], p)
    ensures HasPath(Insert(t, folders, leaf), p)
    decreases |folders|
  {
    var q := folders + [leaf];
    if p != [] {
      if folders == [] {
        if p[0] == leaf {
          assert p[..1] == [leaf];
          assert |p| == 1;
        }
      } else if p[0] == folders[0] {
        var rest := folders[1..];
        assert q[1..] == rest + [leaf];
        InsertKeepsPaths(t.children[folders[0]], rest, leaf, p[1..]);
      }
    }
  }

  /** An entry later in the list wipes what lies below it: a later file named like an
      earlier folder replaces that folder's whole subtree. */
  lemma LeafReplacesFolder()
    ensures TreeOf(["z/a/b", "z/a"]) == Node(map["z" := Node(map["a" := Empty])])
    ensures HasPath(TreeOf(["z/a/b"]), ["z", "a", "b"]) && !HasPath(TreeOf(["z/a/b", "z/a"]), ["z", "a", "b"])
  {
    var t1 := Node(map["z" := Node(map["a" := Node(map["b" := Empty])])]);
    FirstTree();
    ComponentsOfShort();
    assert ["z/a/b", "z/a"][..1] == ["z/a/b"];
    assert ["z", "a"][..1] == ["z"] && ["z"][1..] == [];
    assert Insert(t1.children["z"], [], "a") == Node(map["a" := Empty]);
    assert Insert(t1, ["z"], "a") == Node(map["z" := Node(map["a" := Empty])]);
    assert ["z", "a", "b"][1..] == ["a", "b"] && ["a", "b"][1..] == ["b"] && ["b"][1..] == [];
  }

  lemma ComponentsOfShort()
    ensures Components("z/a") == ["z", "a"]
  {
    SplitAppend("z", "a", Sep);
    SplitPlain("a", Sep);
    assert "z/a" == "z" + [Sep] + "a";
  }

  lemma FirstTree()
    ensures TreeOf(["z/a/b"]) == Node(map["z" := Node(map["a" := Node(map["b" := Empty])])])
  {
    assert Components("z/a/b") == ["z", "a", "b"] by {
      SplitAppend("z", "a/b", Sep);
      SplitAppend("a", "b", Sep);
      SplitPlain("b", Sep);
      assert "z/a/b" == "z" + [Sep] + "a/b" && "a/b" == "a" + [Sep] + "b";
    }
    assert ["z/a/b"][..0] == [];
    assert ["z", "a", "b"][..2] == ["z", "a"] && ["z", "a"][1..] == ["a"] && ["a"][1..] == [];
    assert Insert(Empty, [], "b") == Node(map["b" := Empty]);
    assert Insert(Empty, ["a"], "b") == Node(map["a" := Node(map["b" := Empty])]);
  }

  /** Every listed name is a path of the tree unless a later name is a proper prefix of it
      (component-wise), in which case its folder was replaced by that later file. */
  lemma {:induction false} EntriesArePaths(names: seq<string>, k: nat)
    requires k < |names|
    requires forall j :: k < j < |names| ==> !ProperPrefix(Components(names[j]), Components(names[k]))
    ensures HasPath(TreeOf(names), Components(names[k]))
    decreases |names|
  {
    var n := |names| - 1;
    var comps := Components(names[n]);
    assert comps[..|comps| - 1] + [comps[|comps| - 1]] == comps;
    if k == n {
      InsertMakesPath(TreeOf(names[..n]), comps[..|comps| - 1], comps[|comps| - 1]);
    } else {
      assert names[..n][k] == names[k];
      forall j | k < j < |names[..n]|
        ensures !ProperPrefix(Components(names[..n][j]), Components(names[..n][k]))
      {
        assert names[..n][j] == names[j];
      }
      EntriesArePaths(names[..n], k);
      InsertKeepsPaths(TreeOf(names[..n]), comps[..|comps| - 1], comps[|comps| - 1], Components(names[k]));
    }
  }

  // ---------------------------------------------------------------------------------
  // Lookup

  /** The first archive at or after i whose info map has the name, with its info. */
  function FindFrom(infos: seq<map<string, ZipInfo>>, name: string, i: nat): Result<(nat, ZipInfo)>
    decreases |infos| - i
  {
    if i >= |infos| then Err("Cannot find file: ")
    else if name in infos[i] then Ok((i, infos[i][name]))
    else FindFrom(infos, name, i + 1)
  }

  /** __find_file finds the lowest-index archive that has the name and its info there,
      and fails exactly when no archive has the name. */
  lemma {:induction false} FindLowest(infos: seq<map<string, ZipInfo>>, name: string, i: nat)
    ensures FindFrom(infos, name, i).Err? <==> forall j :: i <= j < |infos| ==> name !in infos[j]
    ensures FindFrom(infos, name, i).Ok? ==>
              var (z, info) := FindFrom(infos, name, i).value;
              i <= z < |infos| && name in infos[z] && info == infos[z][name] &&
              forall j :: i <= j < z ==> name !in infos[j]
    decreases |infos| - i
  {
    if i < |infos| && name !in infos[i] {
      FindLowest(infos, name, i + 1);
    }
  }

  // ---------------------------------------------------------------------------------
  // The reader

  class MultiZipReader {
    var filelist: seq<string>
    var infos: seq<map<string, ZipInfo>>
    var tree: Tree

    /** The reader over the normalised paths, with archives[i] the member infos of the
        archive at paths[i], in infolist() order. */
    constructor (paths: seq<string>, archives: seq<seq<ZipInfo>>)
      requires |archives| == |paths|
      ensures filelist == FileList(paths, archives)
      ensures infos == Infos(paths, archives)
      ensures tree == TreeOf(filelist)
    {
      var list: seq<string> := [];
      var maps: seq<map<string, ZipInfo>> := [];
      for i := 0 to |paths|
        invariant list == FileList(paths[..i], archives[..i])
        invariant maps == Infos(paths[..i], archives[..i])
      {
        var data, entries := IndexArchive(BaseName(paths[i]), archives[i]);
        FileListSnoc(paths, archives, i);
        list := list + entries;
        maps := maps + [data];
      }
      assert paths[..|paths|] == paths && archives[..|archives|] == archives;
      var t := BuildTree(list);
      filelist := list;
      infos := maps;
      tree := t;
    }

    /** __find_file: the loop over the archives stops at the first that has the name. */
    method FindFile(name: string) returns (r: Result<(nat, ZipInfo)>)
      ensures r == FindFrom(infos, name, 0)
    {
      var zipid := -1;
      var i := 0;
      while i < |infos|
        invariant 0 <= i <= |infos|
        invariant FindFrom(infos, name, 0) == FindFrom(infos, name, i)
      {
        if name in infos[i] {
          zipid := i;
          break;
        }
        i := i + 1;
      }
      if zipid < 0 {
        return Err("Cannot find file: ");
      }
      return Ok((zipid, infos[zipid][name]));
    }
  }

  /** The loop over one archive's infolist(): each member under its listed name, into the
      archive's map and onto the list. */
  method IndexArchive(zipName: string, members: seq<ZipInfo>) returns (data: map<string, ZipInfo>, entries: seq<string>)
    ensures data == InfoMap(zipName, members)
    ensures entries == ZipEntries(zipName, members)
  {
    data := map[];
    entries := [];
    for j := 0 to |members|
      invariant data == InfoMap(zipName, members[..j])
      invariant entries == ZipEntries(zipName, members[..j])
    {
      var name := zipName + [Sep] + Normpath(members[j].filename);
      data := data[name := members[j]];
      entries := entries + [name];
      assert members[..j + 1][..j] == members[..j];
      ZipEntriesSnoc(zipName, members, j);
    }
    assert members[..|members|] == members;
  }

  /** The loop that populates the file tree, one listed name at a time. */
  method BuildTree(names: seq<string>) returns (t: Tree)
    ensures t == TreeOf(names)
  {
    t := Empty;
    for k := 0 to |names|
      invariant t == TreeOf(names[..k])
    {
      var comps := Split(names[k], Sep);
      var folders := comps[..|comps| - 1];
      var leaf := comps[|comps| - 1];
      t := Insert(t, folders, leaf);
      assert names[..k + 1][..k] == names[..k];
    }
    assert names[..|names|] == names;
  }

  /** MultiZipReader(zipfiles=..., zipfile=...): the parameter check, then the index. */
  method Open(zipfiles: Option<seq<string>>, zipfile: Option<string>, archives: seq<seq<ZipInfo>>)
    returns (r: Result<MultiZipReader>)
    requires ZipPaths(zipfiles, zipfile).Ok? ==> |archives| == |ZipPaths(zipfiles, zipfile).value|
    ensures r.Err? <==> ZipPaths(zipfiles, zipfile).Err?
    ensures r.Ok? ==> fresh(r.value) && r.value.filelist == FileList(ZipPaths(zipfiles, zipfile).value, archives)
    ensures r.Ok? ==> r.value.infos == Infos(ZipPaths(zipfiles, zipfile).value, archives)
    ensures r.Ok? ==> r.value.tree == TreeOf(r.value.filelist)
  {
    var paths := ZipPaths(zipfiles, zipfile);
    if paths.Err? {
      return Err(paths.msg);
    }
    var reader := new MultiZipReader(paths.value, archives);
    return Ok(reader);
  }
}
