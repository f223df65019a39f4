/** The ignore matcher of ailab/experiment/loaded_files.py, which decides which files of the
    working directory are backed up with an experiment. An entry of the forbidden list
    matches a name exactly; an entry that begins with '*' also matches every name ending in
    the entry with all its '*' removed, and one that ends with '*' every name starting with
    it. The directory walk prunes hidden sub-directories and ignored names; backup and
    needs_backup extend the caller's list with the Python defaults in place. */
module LoadedFiles {

  /** The entries every backup adds to the caller's list. */
  const PythonIgnoreList: seq<string> :=
    ["__pycache__", "*.pyc", ".ipynb_checkpoints", "checkpoints", "dist", "docs",
     "*.egg-info", "tfrecords", "*.code-workspace", ".git"]

  // ---------------------------------------------------------------------------------
  // Python string operations

  /** s.startswith(p) */
  predicate StartsWith(s: string, p: string)
  {
    |p| <= |s| && s[..|p|] == p
  }

  /** s.endswith(p) */
  predicate EndsWith(s: string, p: string)
  {
    |p| <= |s| && s[|s| - |p|..] == p
  }

  /** s.replace("*", ""): every '*' removed. */
  function Strip(s: string): (r: string)
    ensures '*' !in r
    ensures |r| <= |s|
  {
    if s == [] then []
    else (if s[0] == '*' then [] else [s[0]]) + Strip(s[1..])
  }

  lemma {:induction false} StripAppend(a: string, b: string)
    ensures Strip(a + b) == Strip(a) + Strip(b)
    decreases |a|
  {
    if a == [] {
      assert a + b == b;
    } else {
      assert (a + b)[1..] == a[1..] + b;
      StripAppend(a[1..], b);
    }
  }

  lemma {:induction false} StripNoStar(s: string)
    requires '*' !in s
    ensures Strip(s) == s
    decreases |s|
  {
    if s != [] {
      assert s[0] in s;
      assert s[1..] == s[1..] && forall c :: c in s[1..] ==> c in s;
      StripNoStar(s[1..]);
      assert [s[0]] + s[1..] == s;
    }
  }

  lemma EndsWithAppend(a: string, b: string)
    ensures EndsWith(a + b, b)
  {
    assert (a + b)[|a + b| - |b|..] == b;
  }

  /** s does not end with p when they differ k characters from the end. */
  lemma SuffixCharDiffers(s: string, p: string, k: nat)
    requires k < |p| && (|p| <= |s| ==> s[|s| - 1 - k] != p[|p| - 1 - k])
    ensures !EndsWith(s, p)
  {
  }

  /** The stripped form of a suffix pattern "*x". */
  lemma StripLeading(x: string)
    requires '*' !in x
    ensures Strip("*" + x) == x
  {
    StripAppend("*", x);
    StripNoStar(x);
    assert Strip("*") == [];
  }

  // ---------------------------------------------------------------------------------
  // What the matcher means

  /** Does one list entry make the candidate ignored? */
  predicate IgnoredBy(candidate: string, entry: string)
  {
    candidate == entry
    || (StartsWith(entry, "*") && EndsWith(candidate, Strip(entry)))
    || (EndsWith(entry, "*") && StartsWith(candidate, Strip(entry)))
  }

  /** A candidate is ignored when some entry of the list ignores it. */
  predicate Ignored(candidate: string, forbidden: seq<string>)
  {
    exists e :: e in forbidden && IgnoredBy(candidate, e)
  }

  // ---------------------------------------------------------------------------------
  // The two pattern lists the matcher builds

  /** start_list: the stripped entries that end with '*', in list order. */
  function StartList(forbidden: seq<string>): (r: seq<string>)
    ensures forall p :: p in r <==> exists e :: e in forbidden && EndsWith(e, "*") && Strip(e) == p
  {
    if forbidden == [] then []
    else
      var init := forbidden[..|forbidden| - 1];
      var last := forbidden[|forbidden| - 1];
      assert forall e :: e in forbidden <==> e in init || e == last;
      StartList(init) + (if EndsWith(last, "*") then [Strip(last)] else [])
  }

  /** end_list: the stripped entries that start with '*', in list order. */
  function EndList(forbidden: seq<string>): (r: seq<string>)
    ensures forall p :: p in r <==> exists e :: e in forbidden && StartsWith(e, "*") && Strip(e) == p
  {
    if forbidden == [] then []
    else
      var init := forbidden[..|forbidden| - 1];
      var last := forbidden[|forbidden| - 1];
      assert forall e :: e in forbidden <==> e in init || e == last;
      EndList(init) + (if StartsWith(last, "*") then [Strip(last)] else [])
  }

  /** The test the matcher performs once both lists are built. */
  predicate Matches(candidate: string, forbidden: seq<string>)
  {
    candidate in forbidden
    || (exists p :: p in StartList(forbidden) && StartsWith(candidate, p))
    || (exists p :: p in EndList(forbidden) && EndsWith(candidate, p))
  }

  lemma MatchesIffIgnored(candidate: string, forbidden: seq<string>)
    ensures Matches(candidate, forbidden) <==> Ignored(candidate, forbidden)
  {
    if Matches(candidate, forbidden) {
      if candidate in forbidden {
        assert IgnoredBy(candidate, candidate);
      } else if p :| p in StartList(forbidden) && StartsWith(candidate, p) {
        var e :| e in forbidden && EndsWith(e, "*") && Strip(e) == p;
        assert IgnoredBy(candidate, e);
      } else {
        var p :| p in EndList(forbidden) && EndsWith(candidate, p);
        var e :| e in forbidden && StartsWith(e, "*") && Strip(e) == p;
        assert IgnoredBy(candidate, e);
      }
    }
    if Ignored(candidate, forbidden) {
      var e :| e in forbidden && IgnoredBy(candidate, e);
      if candidate == e {
      } else if StartsWith(e, "*") && EndsWith(candidate, Strip(e)) {
        assert Strip(e) in EndList(forbidden);
      } else {
        assert Strip(e) in StartList(forbidden);
      }
    }
  }

  /** The first loop of __ignore: sort the entries into start_list and end_list. */
  method SplitPatterns(forbidden: seq<string>) returns (startList: seq<string>, endList: seq<string>)
    ensures startList == StartList(forbidden)
    ensures endList == EndList(forbidden)
  {
    startList, endList := [], [];
    for k := 0 to |forbidden|
      invariant startList == StartList(forbidden[..k])
      invariant endList == EndList(forbidden[..k])
    {
      var item := forbidden[k];
      assert forbidden[..k + 1][..k] == forbidden[..k];
      if StartsWith(item, "*") {
        endList := endList + [Strip(item)];
      }
      if EndsWith(item, "*") {
        startList := startList + [Strip(item)];
      }
    }
    assert forbidden[..|forbidden|] == forbidden;
  }

  /** res |= candidate.startswith(item) for every item of start_list. */
  method AnyPrefix(candidate: string, prefixes: seq<string>, res0: bool) returns (res: bool)
    ensures res <==> res0 || exists p :: p in prefixes && StartsWith(candidate, p)
  {
    res := res0;
    for k := 0 to |prefixes|
      invariant res <==> res0 || exists p :: p in prefixes[..k] && StartsWith(candidate, p)
    {
      assert prefixes[..k + 1] == prefixes[..k] + [prefixes[k]];
      res := res || StartsWith(candidate, prefixes[k]);
    }
    assert prefixes[..|prefixes|] == prefixes;
  }

  /** res |= candidate.endswith(item) for every item of end_list. */
  method AnySuffix(candidate: string, suffixes: seq<string>, res0: bool) returns (res: bool)
    ensures res <==> res0 || exists p :: p in suffixes && EndsWith(candidate, p)
  {
    res := res0;
    for k := 0 to |suffixes|
      invariant res <==> res0 || exists p :: p in suffixes[..k] && EndsWith(candidate, p)
    {
      assert suffixes[..k + 1] == suffixes[..k] + [suffixes[k]];
      res := res || EndsWith(candidate, suffixes[k]);
    }
    assert suffixes[..|suffixes|] == suffixes;
  }

  /** __ignore: build start_list and end_list, then OR the exact test with every prefix
      and suffix test. */
  method Ignore(candidate: string, forbidden: seq<string>) returns (res: bool)
    ensures res <==> Ignored(candidate, forbidden)
  {
    var startList, endList := SplitPatterns(forbidden);
    res := candidate in forbidden;
    res := AnyPrefix(candidate, startList, res);
    res := AnySuffix(candidate, endList, res);
    MatchesIffIgnored(candidate, forbidden);
  }

  // ---------------------------------------------------------------------------------
  // Properties of the matcher

  /** A name equal to an entry is ignored. */
  lemma ExactEntryIgnored(candidate: string, forbidden: seq<string>)
    requires candidate in forbidden
    ensures Ignored(candidate, forbidden)
  {
    assert IgnoredBy(candidate, candidate);
  }

  /** A lone "*x" entry (x without '*') ignores exactly the names ending in x. */
  lemma LeadingStarIsSuffix(candidate: string, x: string)
    requires '*' !in x && x != []
    ensures Ignored(candidate, ["*" + x]) <==> EndsWith(candidate, x)
  {
    SuffixEntry(candidate, x);
    assert "*" + x in ["*" + x];
  }

  /** A lone "x*" entry (x without '*') ignores exactly the names starting with x. */
  lemma TrailingStarIsPrefix(candidate: string, x: string)
    requires '*' !in x && x != []
    ensures Ignored(candidate, [x + "*"]) <==> StartsWith(candidate, x)
  {
    var e := x + "*";
    StripAppend(x, "*");
    StripNoStar(x);
    assert Strip("*") == [];
    assert Strip(e) == x;
    assert e[|e| - 1..] == "*";
    assert e[0] == x[0] && x[0] in x;
    assert !StartsWith(e, "*");
    assert e in [e];
    if candidate == e {
      assert candidate[..|x|] == x;
    }
  }

  /** A star inside an entry is no wildcard: "a*b" (a and b non-empty, without '*')
      ignores that literal name and nothing else. */
  lemma InnerStarIsLiteral(candidate: string, a: string, b: string)
    requires '*' !in a && '*' !in b && a != [] && b != []
    ensures Ignored(candidate, [a + "*" + b]) <==> candidate == a + "*" + b
  {
    var e := a + "*" + b;
    assert e[0] == a[0] && a[0] in a;
    assert e[|e| - 1] == b[|b| - 1] && b[|b| - 1] in b;
    assert !StartsWith(e, "*") && !EndsWith(e, "*");
    assert e in [e];
  }

  /** "*x*" ignores the names that start or end with x (and the literal entry), but not a
      name holding x only in its interior. */
  lemma BothStarsArePrefixOrSuffix(candidate: string, x: string)
    requires '*' !in x
    ensures Ignored(candidate, ["*" + x + "*"])
        <==> candidate == "*" + x + "*" || StartsWith(candidate, x) || EndsWith(candidate, x)
  {
    var e := "*" + x + "*";
    StripAppend("*" + x, "*");
    StripAppend("*", x);
    StripNoStar(x);
    assert Strip("*") == [];
    assert Strip(e) == x;
    assert e[..1] == "*" && e[|e| - 1..] == "*";
    assert e in [e];
  }

  lemma InteriorNotMatched()
    ensures !Ignored("xay", ["*a*"])
  {
    BothStarsArePrefixOrSuffix("xay", "a");
    assert "*" + "a" + "*" == "*a*";
    assert "xay"[..1] != "a";
    assert "xay"[2..] != "a";
  }

  /** The entry "*" strips to the empty string, a prefix of every name. */
  lemma LoneStarIgnoresAll(candidate: string, forbidden: seq<string>)
    requires "*" in forbidden
    ensures Ignored(candidate, forbidden)
  {
    assert Strip("*") == [];
    assert "*"[|"*"| - 1..] == "*";
    assert candidate[..0] == [];
    assert IgnoredBy(candidate, "*");
  }

  /** The result is only ever OR-ed, so a longer list ignores at least as much. */
  lemma MoreEntriesIgnoreMore(candidate: string, forbidden: seq<string>, more: seq<string>)
    requires Ignored(candidate, forbidden)
    requires forall e :: e in forbidden ==> e in more
    ensures Ignored(candidate, more)
  {
    var e :| e in forbidden && IgnoredBy(candidate, e);
    assert e in more;
  }

  /** Whether a name is ignored depends only on the set of entries, not their order or
      repetition. */
  lemma SameEntriesSameVerdict(candidate: string, f: seq<string>, g: seq<string>)
    requires forall e :: e in f <==> e in g
    ensures Ignored(candidate, f) <==> Ignored(candidate, g)
  {
    if Ignored(candidate, f) {
      MoreEntriesIgnoreMore(candidate, f, g);
    }
    if Ignored(candidate, g) {
      MoreEntriesIgnoreMore(candidate, g, f);
    }
  }

  lemma PythonListIgnoresBytecode()
    ensures Ignored("model.pyc", PythonIgnoreList)
  {
    assert "model.pyc" == "model" + ".pyc";
    EndsWithAppend("model", ".pyc");
    PythonEntry("model.pyc", "*.pyc");
  }

  lemma PythonListIgnoresGit()
    ensures Ignored(".git", PythonIgnoreList)
  {
    assert PythonIgnoreList[9] == ".git";
    ExactEntryIgnored(".git", PythonIgnoreList);
  }

  /** An entry without '*' ignores only the name equal to it. */
  lemma PlainEntry(candidate: string, e: string)
    requires '*' !in e
    ensures IgnoredBy(candidate, e) <==> candidate == e
  {
  }

  /** A suffix pattern "*x" ignores the names that end with x. */
  lemma SuffixEntry(candidate: string, x: string)
    requires '*' !in x && x != []
    ensures IgnoredBy(candidate, "*" + x) <==> EndsWith(candidate, x)
  {
    var e := "*" + x;
    StripLeading(x);
    assert e[..1] == "*";
    assert e[|e| - 1] == x[|x| - 1] && x[|x| - 1] in x;
    assert !EndsWith(e, "*");
    if candidate == e {
      assert candidate[|candidate| - |x|..] == x;
    }
  }

  /** Of the default entries, three are suffix patterns and the rest are plain names. */
  lemma PythonEntry(candidate: string, e: string)
    requires e in PythonIgnoreList
    ensures IgnoredBy(candidate, e)
        <==> if e == "*.pyc" then EndsWith(candidate, ".pyc")
             else if e == "*.egg-info" then EndsWith(candidate, ".egg-info")
             else if e == "*.code-workspace" then EndsWith(candidate, ".code-workspace")
             else candidate == e
  {
    if e == "*.pyc" {
      assert e == "*" + ".pyc";
      SuffixEntry(candidate, ".pyc");
    } else if e == "*.egg-info" {
      assert e == "*" + ".egg-info";
      SuffixEntry(candidate, ".egg-info");
    } else if e == "*.code-workspace" {
      assert e == "*" + ".code-workspace";
      SuffixEntry(candidate, ".code-workspace");
    } else {
      PlainEntry(candidate, e);
    }
  }

  /** Which names the default list ignores. */
  lemma PythonListShape(candidate: string)
    ensures Ignored(candidate, PythonIgnoreList)
        <==> candidate in PythonIgnoreList
             || EndsWith(candidate, ".pyc")
             || EndsWith(candidate, ".egg-info")
             || EndsWith(candidate, ".code-workspace")
  {
    if Ignored(candidate, PythonIgnoreList) {
      var e :| e in PythonIgnoreList && IgnoredBy(candidate, e);
      PythonEntry(candidate, e);
    }
    if EndsWith(candidate, ".pyc") {
      PythonEntry(candidate, "*.pyc");
    }
    if EndsWith(candidate, ".egg-info") {
      PythonEntry(candidate, "*.egg-info");
    }
    if EndsWith(candidate, ".code-workspace") {
      PythonEntry(candidate, "*.code-workspace");
    }
    if candidate in PythonIgnoreList {
      assert IgnoredBy(candidate, candidate);
    }
  }

  lemma PythonListKeepsSources()
    ensures !Ignored("main.py", PythonIgnoreList)
  {
    assert !EndsWith("main.py", ".pyc") by { SuffixCharDiffers("main.py", ".pyc", 0); }
    assert !EndsWith("main.py", ".egg-info") by { SuffixCharDiffers("main.py", ".egg-info", 0); }
    assert !EndsWith("main.py", ".code-workspace") by {
      SuffixCharDiffers("main.py", ".code-workspace", 0);
    }
    assert "main.py" !in PythonIgnoreList;
    PythonListShape("main.py");
  }

  lemma PythonListKeepsDotFiles()
    ensures !Ignored(".bashrc", PythonIgnoreList)
  {
    assert !EndsWith(".bashrc", ".pyc") by { SuffixCharDiffers(".bashrc", ".pyc", 1); }
    assert !EndsWith(".bashrc", ".egg-info") by { SuffixCharDiffers(".bashrc", ".egg-info", 0); }
    assert !EndsWith(".bashrc", ".code-workspace") by {
      SuffixCharDiffers(".bashrc", ".code-workspace", 0);
    }
    assert ".bashrc" !in PythonIgnoreList;
    PythonListShape(".bashrc");
  }

  // ---------------------------------------------------------------------------------
  // The filters of the directory walk

  /** The file names the walk keeps: those not ignored, in their order. */
  function KeptFiles(files: seq<string>, forbidden: seq<string>): (r: seq<string>)
    ensures forall x :: x in r <==> x in files && !Ignored(x, forbidden)
    ensures |r| <= |files|
  {
    if files == [] then []
    else
      assert forall x :: x in files <==> x == files[0] || x in files[1..];
      (if Ignored(files[0], forbidden) then [] else [files[0]]) + KeptFiles(files[1..], forbidden)
  }

  /** The sub-directories the walk descends into: not hidden and not ignored. */
  function KeptDirs(subdirs: seq<string>, forbidden: seq<string>): (r: seq<string>)
    ensures forall x :: x in r <==> x in subdirs && !StartsWith(x, ".") && !Ignored(x, forbidden)
    ensures |r| <= |subdirs|
  {
    if subdirs == [] then []
    else
      assert forall x :: x in subdirs <==> x == subdirs[0] || x in subdirs[1..];
      var d := subdirs[0];
      (if StartsWith(d, ".") || Ignored(d, forbidden) then [] else [d]) + KeptDirs(subdirs[1..], forbidden)
  }

  /** A hidden name is pruned as a directory but kept as a file unless it is listed. */
  lemma HiddenDirectoryPrunedHiddenFileKept()
    ensures ".bashrc" in KeptFiles([".bashrc"], PythonIgnoreList)
    ensures KeptDirs([".bashrc"], PythonIgnoreList) == []
    ensures KeptFiles([".git"], PythonIgnoreList) == []
  {
    PythonListKeepsDotFiles();
    PythonListIgnoresGit();
    assert ".bashrc"[..1] == ".";
  }

  // ---------------------------------------------------------------------------------
  // The forbidden list the caller passes to backup / needs_backup

  /** A Python list object: backup and needs_backup mutate it, so a default argument
      shared between calls accumulates entries. */
  class ForbiddenList {
    var entries: seq<string>

    constructor (entries0: seq<string>)
      ensures entries == entries0
    {
      entries := entries0;
    }

    /** list.extend */
    method Extend(more: seq<string>)
      modifies this
      ensures entries == old(entries) + more
    {
      entries := entries + more;
    }
  }

  /** The effect of backup and needs_backup on their list argument; the walk and the file
      copies or comparisons then use the extended list. */
  method PrepareForbidden(forbidden: ForbiddenList) returns (effective: seq<string>)
    modifies forbidden
    ensures forbidden.entries == old(forbidden.entries) + PythonIgnoreList
    ensures effective == forbidden.entries
  {
    forbidden.Extend(PythonIgnoreList);
    effective := forbidden.entries;
  }

  /** Two calls with the shared default list leave it holding the defaults twice. */
  method SharedDefaultGrows(shared: ForbiddenList)
    modifies shared
    ensures shared.entries == old(shared.entries) + PythonIgnoreList + PythonIgnoreList
    ensures |shared.entries| == |old(shared.entries)| + 20
  {
    var _ := PrepareForbidden(shared);
    var _ := PrepareForbidden(shared);
  }

  /** The growth is harmless to matching: the defaults repeated ignore the same names. */
  lemma RepeatedDefaultsSameVerdict(candidate: string, forbidden: seq<string>)
    ensures Ignored(candidate, forbidden + PythonIgnoreList + PythonIgnoreList)
        <==> Ignored(candidate, forbidden + PythonIgnoreList)
  {
    SameEntriesSameVerdict(candidate, forbidden + PythonIgnoreList + PythonIgnoreList,
                           forbidden + PythonIgnoreList);
  }
}
