/** The hyperparameter store of ailab/experiment/config.py: a ConfigPart is an object whose
    attribute dictionary is the configuration. Writing an attribute substitutes environment
    variables into strings and is refused once the part is frozen; equality and to_dict
    look through nested parts. A Config is a ConfigPart built with the default training,
    architecture and problem sections, and check_completness asserts the required ones.

    Nested parts are stored as values (a snapshot of their dictionary); the environment is
    the ordered list of (name, value) pairs that os.environ yields. */
module ExperimentConfig {

  datatype Option<T> = None | Some(value: T)

  /** The attribute values a configuration holds. PartV is a nested ConfigPart, DictV a
      plain dict (what to_dict produces). */
  datatype Val =
    | NoneV
    | BoolV(b: bool)
    | IntV(i: int)
    | RealV(r: real)
    | StrV(s: string)
    | DictV(entries: map<string, Val>)
    | PartV(fields: map<string, Val>)

  /** The exceptions __setattr__ raises. */
  datatype ConfigError =
    | Frozen                     // RuntimeError: modifying a part whose immutable flag is set
    | Unresolved(value: string)  // RuntimeError: a '$' or '%' left after substitution

  type Env = seq<(string, string)>

  const ImmutableKey: string := "immutable"

  // ---------------------------------------------------------------------------------
  // Python semantics the store relies on

  /** bool(v). A ConfigPart defines neither __bool__ nor __len__, so it is always true. */
  predicate Truthy(v: Val)
  {
    match v
    case NoneV => false
    case BoolV(b) => b
    case IntV(i) => i != 0
    case RealV(r) => r != 0.0
    case StrV(s) => s != []
    case DictV(m) => m != map[]
    case PartV(_) => true
  }

  predicate IsNumber(v: Val)
  {
    v.BoolV? || v.IntV? || v.RealV?
  }

  function Number(v: Val): real
    requires IsNumber(v)
  {
    match v
    case BoolV(b) => if b then 1.0 else 0.0
    case IntV(i) => i as real
    case RealV(r) => r
  }

  /** Python's == on configuration values: numbers compare by value across bool, int and
      float; dicts and parts compare key by key; a part never equals a non-part, since
      ConfigPart.__eq__ returns NotImplemented and identity decides. */
  predicate PyEq(a: Val, b: Val)
    decreases a
  {
    match a
    case NoneV => b.NoneV?
    case StrV(s) => b.StrV? && b.s == s
    case DictV(m) => b.DictV? && m.Keys == b.entries.Keys && forall k :: k in m ==> PyEq(m[k], b.entries[k])
    case PartV(f) => b.PartV? && f.Keys == b.fields.Keys && forall k :: k in f ==> PyEq(f[k], b.fields[k])
    case _ => IsNumber(b) && Number(a) == Number(b)
  }

  /** ConfigPart.__eq__: the same keys, and at every key values that are equal. */
  predicate FieldsEq(a: map<string, Val>, b: map<string, Val>)
  {
    PyEq(PartV(a), PartV(b))
  }

  /** Python's == on these values is symmetric ... */
  lemma {:induction false} PyEqSymmetric(a: Val, b: Val)
    ensures PyEq(a, b) <==> PyEq(b, a)
    decreases a
  {
    match a
    case DictV(m) =>
      if b.DictV? && m.Keys == b.entries.Keys {
        forall k | k in m
          ensures PyEq(m[k], b.entries[k]) <==> PyEq(b.entries[k], m[k])
        {
          PyEqSymmetric(m[k], b.entries[k]);
        }
      }
    case PartV(f) =>
      if b.PartV? && f.Keys == b.fields.Keys {
        forall k | k in f
          ensures PyEq(f[k], b.fields[k]) <==> PyEq(b.fields[k], f[k])
        {
          PyEqSymmetric(f[k], b.fields[k]);
        }
      }
    case _ =>
  }

  /** ... and reflexive. */
  lemma {:induction false} PyEqReflexive(a: Val)
    ensures PyEq(a, a)
    decreases a
  {
    match a
    case DictV(m) =>
      forall k | k in m ensures PyEq(m[k], m[k]) { PyEqReflexive(m[k]); }
    case PartV(f) =>
      forall k | k in f ensures PyEq(f[k], f[k]) { PyEqReflexive(f[k]); }
    case _ =>
  }

  /** Python's str.replace(pat, rep): every non-overlapping occurrence, left to right. */
  function Replace(s: string, pat: string, rep: string): (r: string)
    requires |pat| > 0
    decreases |s|
  {
    if |s| < |pat| then s
    else if s[..|pat|] == pat then rep + Replace(s[|pat|..], pat, rep)
    else [s[0]] + Replace(s[1..], pat, rep)
  }

  /** A string without the pattern's first character is left alone. */
  lemma {:induction false} ReplaceAbsent(s: string, pat: string, rep: string)
    requires |pat| > 0 && pat[0] !in s
    ensures Replace(s, pat, rep) == s
    decreases |s|
  {
    if |s| >= |pat| {
      assert s[..|pat|][0] == s[0] && s[0] in s;
      assert s[1..] == s[..][1..];
      assert forall c :: c in s[1..] ==> c in s;
      ReplaceAbsent(s[1..], pat, rep);
    }
  }

  /** A character that neither the text nor the replacement holds is not in the result. */
  lemma {:induction false} ReplaceKeepsOut(s: string, pat: string, rep: string, c: char)
    requires |pat| > 0 && c !in s && c !in rep
    ensures c !in Replace(s, pat, rep)
    decreases |s|
  {
    if |s| >= |pat| {
      assert forall x :: x in s[|pat|..] ==> x in s;
      assert forall x :: x in s[1..] ==> x in s;
      if s[..|pat|] == pat {
        ReplaceKeepsOut(s[|pat|..], pat, rep, c);
      } else {
        ReplaceKeepsOut(s[1..], pat, rep, c);
      }
    }
  }

  // ---------------------------------------------------------------------------------
  // Environment substitution

  /** An environment value with its backslashes turned into forward slashes. */
  function ForwardSlashes(v: string): string
  {
    Replace(v, "\\", "/")
  }

  /** The first loop of __setattr__: "$NAME" for every variable, in environment order. */
  function DollarPass(s: string, env: Env): string
    decreases |env|
  {
    if env == [] then s
    else DollarPass(Replace(s, "$" + env[0].0, ForwardSlashes(env[0].1)), env[1..])
  }

  /** The second loop: "%NAME%" for every variable, in environment order. */
  function PercentPass(s: string, env: Env): string
    decreases |env|
  {
    if env == [] then s
    else PercentPass(Replace(s, "%" + env[0].0 + "%", ForwardSlashes(env[0].1)), env[1..])
  }

  /** The text a string value is stored as. */
  function Substitute(s: string, env: Env): string
  {
    PercentPass(DollarPass(s, env), env)
  }

  /** A string without '$' and '%' is stored as it is, whatever the environment. */
  lemma {:induction false} PlainStringUnchanged(s: string, env: Env)
    requires '$' !in s && '%' !in s
    ensures DollarPass(s, env) == s && PercentPass(s, env) == s && Substitute(s, env) == s
    decreases |env|
  {
    if env != [] {
      ReplaceAbsent(s, "$" + env[0].0, ForwardSlashes(env[0].1));
      ReplaceAbsent(s, "%" + env[0].0 + "%", ForwardSlashes(env[0].1));
      PlainStringUnchanged(s, env[1..]);
    }
  }

  /** Substitution runs in environment order: a value that names another variable is
      expanded only when that variable comes later. */
  lemma EnvironmentOrderMatters()
    ensures Substitute("$A", [("A", "$B"), ("B", "x")]) == "x"
    ensures Substitute("$A", [("B", "x"), ("A", "$B")]) == "$B"
  {
    assert Replace("$A", "$A", "$B") == "$B" by {
      assert "$A"[2..] == [];
    }
    assert Replace("$B", "$B", "x") == "x" by {
      assert "$B"[2..] == [];
    }
    assert Replace("$A", "$B", "x") == "$A" by {
      assert "$A"[1..] == "A";
      assert Replace("A", "$B", "x") == "A";
    }
    assert Replace("$B", "$A", "$B") == "$B" by {
      assert "$B"[1..] == "B";
      assert Replace("B", "$A", "$B") == "B";
    }
    assert DollarPass("$A", [("A", "$B"), ("B", "x")]) == "x" by {
      assert [("A", "$B"), ("B", "x")][1..] == [("B", "x")];
      assert ForwardSlashes("$B") == "$B" by { ReplaceAbsent("$B", "\\", "/"); }
      assert ForwardSlashes("x") == "x" by { ReplaceAbsent("x", "\\", "/"); }
    }
    assert DollarPass("$A", [("B", "x"), ("A", "$B")]) == "$B" by {
      assert [("B", "x"), ("A", "$B")][1..] == [("A", "$B")];
      assert ForwardSlashes("$B") == "$B" by { ReplaceAbsent("$B", "\\", "/"); }
      assert ForwardSlashes("x") == "x" by { ReplaceAbsent("x", "\\", "/"); }
    }
    PlainStringUnchanged("x", [("A", "$B"), ("B", "x")]);
    assert PercentPass("$B", [("B", "x"), ("A", "$B")]) == "$B" by {
      assert [("B", "x"), ("A", "$B")][1..] == [("A", "$B")];
      ReplaceAbsent("$B", "%B%", ForwardSlashes("x"));
      ReplaceAbsent("$B", "%A%", ForwardSlashes("$B"));
    }
  }

  /** "$NAME" is plain text replacement: a variable whose name is a prefix of another
      rewrites the longer reference first when it comes first. */
  lemma PrefixNameShadows()
    ensures DollarPass("$HOMEDIR", [("HOME", "/h"), ("HOMEDIR", "/d")]) == "/hDIR"
  {
    var env := [("HOME", "/h"), ("HOMEDIR", "/d")];
    assert ForwardSlashes("/h") == "/h" by { ReplaceAbsent("/h", "\\", "/"); }
    assert "$HOMEDIR"[..5] == "$HOME" && "$HOMEDIR"[5..] == "DIR";
    assert Replace("DIR", "$HOME", "/h") == "DIR";
    assert Replace("$HOMEDIR", "$HOME", "/h") == "/hDIR";
    assert Replace("/hDIR", "$HOMEDIR", ForwardSlashes("/d")) == "/hDIR" by {
      ReplaceAbsent("/hDIR", "$HOMEDIR", ForwardSlashes("/d"));
    }
    assert env[1..] == [("HOMEDIR", "/d")];
  }

  lemma SlashesOfDrivePath()
    ensures ForwardSlashes("C:\\d") == "C:/d"
  {
    assert "C:\\d"[1..] == ":\\d" && ":\\d"[1..] == "\\d" && "\\d"[1..] == "d";
    assert Replace("d", "\\", "/") == "d";
  }

  /** Windows paths in the environment are written with forward slashes. */
  lemma BackslashesBecomeSlashes()
    ensures Substitute("%DATA%", [("DATA", "C:\\d")]) == "C:/d"
  {
    var env := [("DATA", "C:\\d")];
    SlashesOfDrivePath();
    assert DollarPass("%DATA%", env) == "%DATA%" by {
      ReplaceAbsent("%DATA%", "$DATA", ForwardSlashes("C:\\d"));
    }
    assert Replace("%DATA%", "%DATA%", "C:/d") == "C:/d" by {
      assert "%DATA%"[6..] == [];
    }
  }

  // ---------------------------------------------------------------------------------
  // __setattr__

  /** The dictionary after a write and the exception it raised, if any. */
  datatype SetOutcome = SetOutcome(fields: map<string, Val>, err: Option<ConfigError>)

  /** What setting key to value does to the attribute dictionary d: the immutable flag is
      added as False when missing, a frozen part refuses, a string is substituted and
      refused when a '$' or '%' is left, and anything else is stored as it is. */
  function SetAttrSpec(d: map<string, Val>, key: string, value: Val, env: Env): SetOutcome
  {
    var d1 := if ImmutableKey in d then d else d[ImmutableKey := BoolV(false)];
    if Truthy(d1[ImmutableKey]) then SetOutcome(d1, Some(Frozen))
    else
      match value
      case StrV(s) =>
        var t := Substitute(s, env);
        if '%' in t || '$' in t then SetOutcome(d1, Some(Unresolved(t)))
        else SetOutcome(d1[key := StrV(t)], None)
      case _ => SetOutcome(d1[key := value], None)
  }

  /** A frozen part refuses every write and keeps all its fields. */
  lemma FrozenRefuses(d: map<string, Val>, key: string, value: Val, env: Env)
    requires ImmutableKey in d && Truthy(d[ImmutableKey])
    ensures SetAttrSpec(d, key, value, env) == SetOutcome(d, Some(Frozen))
  {
  }

  /** An unfrozen part stores a value that needs no substitution as it is. */
  lemma StoresPlain(d: map<string, Val>, key: string, value: Val, env: Env)
    requires ImmutableKey in d && !Truthy(d[ImmutableKey])
    requires value.StrV? ==> '$' !in value.s && '%' !in value.s
    ensures SetAttrSpec(d, key, value, env) == SetOutcome(d[key := value], None)
  {
    if value.StrV? {
      PlainStringUnchanged(value.s, env);
    }
  }

  /** An unfrozen part stores a non-string value as given and leaves every other key alone
      (apart from adding the immutable flag when it was missing). */
  lemma NonStringStored(d: map<string, Val>, key: string, value: Val, env: Env)
    requires !(ImmutableKey in d && Truthy(d[ImmutableKey])) && !value.StrV?
    ensures var o := SetAttrSpec(d, key, value, env);
            o.err == None && key in o.fields && o.fields[key] == value &&
            o.fields.Keys == d.Keys + {key, ImmutableKey} &&
            (forall k :: k in d && k != key ==> o.fields[k] == d[k])
  {
  }

  /** A string stored by a successful write holds no '$' and no '%', and a string that had
      none to begin with is stored unchanged. */
  lemma StoredStringResolved(d: map<string, Val>, key: string, s: string, env: Env)
    ensures var o := SetAttrSpec(d, key, StrV(s), env);
            o.err == None ==> o.fields[key].StrV? && '$' !in o.fields[key].s && '%' !in o.fields[key].s
    ensures !(ImmutableKey in d && Truthy(d[ImmutableKey])) && '$' !in s && '%' !in s ==>
            SetAttrSpec(d, key, StrV(s), env).err == None &&
            SetAttrSpec(d, key, StrV(s), env).fields[key] == StrV(s)
  {
    if '$' !in s && '%' !in s {
      PlainStringUnchanged(s, env);
    }
  }

  /** A string that still names an unknown variable is refused and nothing is stored. */
  lemma UnknownVariableRefused(d: map<string, Val>, key: string, env: Env)
    requires ImmutableKey in d && !Truthy(d[ImmutableKey])
    requires forall k :: 0 <= k < |env| ==> env[k].0 != "" && env[k].0 != "X" && '$' !in env[k].1 && '%' !in env[k].1
    ensures SetAttrSpec(d, key, StrV("$X"), env) == SetOutcome(d, Some(Unresolved("$X")))
  {
    UnknownKept("$X", env);
  }

  lemma {:induction false} UnknownKept(s: string, env: Env)
    requires s == "$X"
    requires forall k :: 0 <= k < |env| ==> env[k].0 != "" && env[k].0 != "X" && '$' !in env[k].1 && '%' !in env[k].1
    ensures DollarPass(s, env) == s && PercentPass(s, env) == s
    decreases |env|
  {
    if env != [] {
      var pat, rep := "$" + env[0].0, ForwardSlashes(env[0].1);
      assert Replace(s, pat, rep) == s by {
        if |pat| == 2 {
          var name := env[0].0;
          assert name == [name[0]] && name[0] != 'X';
          assert pat[1] == name[0] && s[1] == 'X';
          assert s[..|pat|] != pat;
          assert s[1..] == "X" && Replace("X", pat, rep) == "X";
        }
      }
      ReplaceAbsent(s, "%" + env[0].0 + "%", rep);
      UnknownKept(s, env[1..]);
    }
  }

  // ---------------------------------------------------------------------------------
  // to_dict, get, __has_attribute

  /** Every part, at any depth, carries the immutable flag: to_dict deletes that key from
      every part it converts and raises KeyError where it is missing. */
  predicate Flagged(v: Val)
    decreases v
  {
    match v
    case PartV(f) => ImmutableKey in f && forall k :: k in f ==> Flagged(f[k])
    case DictV(m) => true
    case _ => true
  }

  /** A value as to_dict leaves it: parts become plain dicts without the flag. */
  function Plain(v: Val): (r: Val)
    decreases v
  {
    match v
    case PartV(f) => DictV(map k | k in f && k != ImmutableKey :: Plain(f[k]))
    case _ => v
  }

  /** No part at any depth below a dictionary of plain values. */
  predicate NoParts(v: Val)
    decreases v
  {
    match v
    case PartV(_) => false
    case DictV(m) => forall k :: k in m ==> NoParts(m[k])
    case _ => true
  }

  /** to_dict: None stands for the KeyError of a part without the flag. */
  function ToDict(fields: map<string, Val>): Option<map<string, Val>>
  {
    if Flagged(PartV(fields)) then Some(Plain(PartV(fields)).entries) else None
  }

  /** to_dict keeps every key but the flag, converts every nested part into that part's own
      to_dict, and keeps every other value as it is. */
  lemma ToDictShape(fields: map<string, Val>)
    requires Flagged(PartV(fields))
    ensures var r := ToDict(fields);
            r.Some? && r.value.Keys == fields.Keys - {ImmutableKey} &&
            (forall k :: k in r.value && !fields[k].PartV? ==> r.value[k] == fields[k]) &&
            (forall k :: k in r.value && fields[k].PartV? ==> r.value[k].DictV?) &&
            (forall k :: k in r.value && fields[k].PartV? ==>
               ToDict(fields[k].fields).Some? && r.value[k] == DictV(ToDict(fields[k].fields).value))
  {
    var r := Plain(PartV(fields)).entries;
    assert forall k :: k in r ==> r[k] == Plain(fields[k]);
  }

  /** A value converted by to_dict holds no part at any depth, as long as the dictionaries
      the configuration already held hold none. */
  lemma {:induction false} PlainHasNoParts(v: Val)
    requires NoPartsInDicts(v)
    ensures NoParts(Plain(v))
    decreases v
  {
    match v
    case PartV(f) =>
      forall k | k in f && k != ImmutableKey
        ensures NoParts(Plain(f[k]))
      {
        PlainHasNoParts(f[k]);
      }
      assert forall k :: k in Plain(v).entries ==> k in f && k != ImmutableKey && Plain(v).entries[k] == Plain(f[k]);
    case DictV(m) =>
    case _ =>
  }

  /** The dictionaries among v's values (as opposed to its parts) hold no parts. */
  predicate NoPartsInDicts(v: Val)
    decreases v
  {
    match v
    case PartV(f) => forall k :: k in f ==> NoPartsInDicts(f[k])
    case DictV(m) => NoParts(v)
    case _ => true
  }

  /** A fresh ConfigPart(): only the flag, set to False. */
  const EmptyPart: Val := PartV(map[ImmutableKey := BoolV(false)])

  /** get(key, default): the stored value, else the default, else a fresh empty part. */
  function Get(d: map<string, Val>, key: string, default: Option<Val>): (v: Val)
  {
    if key in d then d[key] else if default.Some? then default.value else EmptyPart
  }

  /** __getitem__ is get without a default, so a missing key gives an empty part. */
  function GetItem(d: map<string, Val>, key: string): (v: Val)
  {
    Get(d, key, None)
  }

  /** What get returns in each case, and that a successful write is read back. */
  lemma GetCases(d: map<string, Val>, key: string, default: Option<Val>, value: Val, env: Env)
    ensures key in d ==> Get(d, key, default) == d[key] && GetItem(d, key) == d[key]
    ensures key !in d && default.Some? ==> Get(d, key, default) == default.value
    ensures key !in d ==> GetItem(d, key) == EmptyPart && Truthy(GetItem(d, key))
    ensures var o := SetAttrSpec(d, key, value, env);
            o.err == None && !value.StrV? ==> GetItem(o.fields, key) == value
  {
  }

  /** Config.__has_attribute: present and not None. */
  predicate HasAttribute(v: Val, name: string)
  {
    v.PartV? && name in v.fields && !v.fields[name].NoneV?
  }

  // ---------------------------------------------------------------------------------
  // check_completness

  /** The first attribute check_completness finds missing, as a path of names, or None
      when every assertion holds. */
  function CheckCompleteness(d: map<string, Val>): (missing: Option<seq<string>>)
  {
    if CheckTrain(d).Some? then CheckTrain(d)
    else if CheckArch(d).Some? then CheckArch(d)
    else CheckProblem(d)
  }

  /** The assertions on the training section, in order. */
  function CheckTrain(d: map<string, Val>): Option<seq<string>>
  {
    if !HasAttribute(PartV(d), "train") then Some(["train"])
    else
      var train := d["train"];
      if !HasAttribute(train, "experiment_name") then Some(["train", "experiment_name"])
      else if !HasAttribute(train, "checkpoint_path") then Some(["train", "checkpoint_path"])
      else if !HasAttribute(train, "batch_size") then Some(["train", "batch_size"])
      else if !HasAttribute(train, "epochs") then Some(["train", "epochs"])
      else if !HasAttribute(train, "optimizer") then Some(["train", "optimizer"])
      else if !HasAttribute(train.fields["optimizer"], "type") then Some(["train", "optimizer", "type"])
      else if !HasAttribute(train, "learning_rate") then Some(["train", "learning_rate"])
      else
        var lr := train.fields["learning_rate"];
        if !HasAttribute(lr, "type") then Some(["train", "learning_rate", "type"])
        else if !HasAttribute(lr, "start_value") then Some(["train", "learning_rate", "start_value"])
        else if PyEq(lr.fields["type"], StrV("exponential")) && !HasAttribute(lr, "end_value") then
          Some(["train", "learning_rate", "end_value"])
        else None
  }

  /** The assertions on the architecture section, in order. */
  function CheckArch(d: map<string, Val>): Option<seq<string>>
  {
    if !HasAttribute(PartV(d), "arch") then Some(["arch"])
    else
      var arch := d["arch"];
      if !HasAttribute(arch, "model") then Some(["arch", "model"])
      else if !HasAttribute(arch, "loss") then Some(["arch", "loss"])
      else if !HasAttribute(arch, "metrics") then Some(["arch", "metrics"])
      else if !HasAttribute(arch, "prepare") then Some(["arch", "prepare"])
      else None
  }

  /** The assertions on the problem section. */
  function CheckProblem(d: map<string, Val>): Option<seq<string>>
  {
    if !HasAttribute(PartV(d), "problem") then Some(["problem"])
    else if !HasAttribute(d["problem"], "base_dir") then Some(["problem", "base_dir"])
    else None
  }

  /** The value at a path of attribute names, when every step is a part holding the name. */
  function At(v: Val, path: seq<string>): Option<Val>
    decreases |path|
  {
    if path == [] then Some(v)
    else if v.PartV? && path[0] in v.fields then At(v.fields[path[0]], path[1..])
    else None
  }

  /** A path leads to a value that is not None. */
  predicate Present(d: map<string, Val>, path: seq<string>)
  {
    At(PartV(d), path).Some? && !At(PartV(d), path).value.NoneV?
  }

  const TrainPaths: seq<seq<string>> := [
    ["train"], ["train", "experiment_name"], ["train", "checkpoint_path"], ["train", "batch_size"],
    ["train", "epochs"], ["train", "optimizer"], ["train", "optimizer", "type"],
    ["train", "learning_rate"], ["train", "learning_rate", "type"], ["train", "learning_rate", "start_value"]]

  const ArchPaths: seq<seq<string>> := [["arch"], ["arch", "model"], ["arch", "loss"], ["arch", "metrics"], ["arch", "prepare"]]

  const ProblemPaths: seq<seq<string>> := [["problem"], ["problem", "base_dir"]]

  const EndValue: seq<string> := ["train", "learning_rate", "end_value"]

  /** The learning rate schedule is exponential. */
  predicate Exponential(d: map<string, Val>)
  {
    var t := At(PartV(d), ["train", "learning_rate", "type"]);
    t.Some? && PyEq(t.value, StrV("exponential"))
  }

  /** The minimum a configuration must hold: every required path present, and the end
      value of the learning rate only for an exponential schedule. */
  predicate Complete(d: map<string, Val>)
  {
    (forall p :: p in TrainPaths ==> Present(d, p)) &&
    (Exponential(d) ==> Present(d, EndValue)) &&
    (forall p :: p in ArchPaths ==> Present(d, p)) &&
    (forall p :: p in ProblemPaths ==> Present(d, p))
  }

  /** One step along a path. */
  lemma AtStep(v: Val, path: seq<string>)
    requires path != []
    ensures At(v, path) == if v.PartV? && path[0] in v.fields then At(v.fields[path[0]], path[1..]) else None
  {
  }

  lemma At1(d: map<string, Val>, a: string)
    ensures At(PartV(d), [a]) == if a in d then Some(d[a]) else None
  {
    assert [a][1..] == [];
  }

  lemma At2(d: map<string, Val>, a: string, b: string)
    ensures At(PartV(d), [a, b]) == if a in d && d[a].PartV? && b in d[a].fields then Some(d[a].fields[b]) else None
  {
    assert [a, b][1..] == [b] && [b][1..] == [];
    AtStep(PartV(d), [a, b]);
    if a in d {
      AtStep(d[a], [b]);
    }
  }

  lemma At3(d: map<string, Val>, a: string, b: string, c: string)
    ensures At(PartV(d), [a, b, c]) ==
            if a in d && d[a].PartV? && b in d[a].fields && d[a].fields[b].PartV? && c in d[a].fields[b].fields
            then Some(d[a].fields[b].fields[c]) else None
  {
    assert [a, b, c][1..] == [b, c] && [b, c][1..] == [c] && [c][1..] == [];
    AtStep(PartV(d), [a, b, c]);
    if a in d {
      AtStep(d[a], [b, c]);
      if d[a].PartV? && b in d[a].fields {
        AtStep(d[a].fields[b], [c]);
      }
    }
  }

  /** The training assertions pass exactly when the training paths are present, with the
      end value only for an exponential schedule. */
  lemma TrainIff(d: map<string, Val>)
    ensures CheckTrain(d).None? <==>
            (forall p :: p in TrainPaths ==> Present(d, p)) && (Exponential(d) ==> Present(d, EndValue))
    ensures CheckTrain(d).Some? ==>
            !Present(d, CheckTrain(d).value) && (CheckTrain(d).value in TrainPaths || CheckTrain(d).value == EndValue)
  {
    At1(d, "train");
    At2(d, "train", "experiment_name");
    At2(d, "train", "checkpoint_path");
    At2(d, "train", "batch_size");
    At2(d, "train", "epochs");
    At2(d, "train", "optimizer");
    At3(d, "train", "optimizer", "type");
    At2(d, "train", "learning_rate");
    At3(d, "train", "learning_rate", "type");
    At3(d, "train", "learning_rate", "start_value");
    At3(d, "train", "learning_rate", "end_value");
    if CheckTrain(d).None? {
      assert Present(d, ["train"]) && Present(d, ["train", "experiment_name"]) && Present(d, ["train", "checkpoint_path"]);
      assert Present(d, ["train", "batch_size"]) && Present(d, ["train", "epochs"]) && Present(d, ["train", "optimizer"]);
      assert Present(d, ["train", "optimizer", "type"]) && Present(d, ["train", "learning_rate"]);
      assert Present(d, ["train", "learning_rate", "type"]) && Present(d, ["train", "learning_rate", "start_value"]);
      assert forall p :: p in TrainPaths ==> Present(d, p);
      assert Exponential(d) ==> Present(d, EndValue);
    } else {
      var m := CheckTrain(d).value;
      assert !Present(d, m);
      assert m in TrainPaths || (m == EndValue && Exponential(d));
    }
  }

  /** The architecture assertions pass exactly when its paths are present. */
  lemma ArchIff(d: map<string, Val>)
    ensures CheckArch(d).None? <==> forall p :: p in ArchPaths ==> Present(d, p)
    ensures CheckArch(d).Some? ==> !Present(d, CheckArch(d).value) && CheckArch(d).value in ArchPaths
  {
    At1(d, "arch");
    At2(d, "arch", "model");
    At2(d, "arch", "loss");
    At2(d, "arch", "metrics");
    At2(d, "arch", "prepare");
    assert ArchPaths == [["arch"], ["arch", "model"], ["arch", "loss"], ["arch", "metrics"], ["arch", "prepare"]];
    assert (forall p :: p in ArchPaths ==> Present(d, p)) <==>
           Present(d, ["arch"]) && Present(d, ["arch", "model"]) && Present(d, ["arch", "loss"]) &&
           Present(d, ["arch", "metrics"]) && Present(d, ["arch", "prepare"]);
  }

  /** The problem assertions pass exactly when its paths are present. */
  lemma ProblemIff(d: map<string, Val>)
    ensures CheckProblem(d).None? <==> forall p :: p in ProblemPaths ==> Present(d, p)
    ensures CheckProblem(d).Some? ==> !Present(d, CheckProblem(d).value) && CheckProblem(d).value in ProblemPaths
  {
    At1(d, "problem");
    At2(d, "problem", "base_dir");
  }

  /** check_completness passes exactly on complete configurations, and what it reports
      missing is a required path that is indeed absent. */
  lemma CompletenessIff(d: map<string, Val>)
    ensures CheckCompleteness(d).None? <==> Complete(d)
    ensures CheckCompleteness(d).Some? ==> !Present(d, CheckCompleteness(d).value)
  {
    TrainIff(d);
    ArchIff(d);
    ProblemIff(d);
  }

  /** Only an exponential schedule needs an end value: removing it from a configuration
      with any other schedule does not change the verdict. */
  lemma EndValueOnlyForExponential(d: map<string, Val>, train: map<string, Val>, lr: map<string, Val>)
    requires "train" in d && d["train"] == PartV(train) && "learning_rate" in train && train["learning_rate"] == PartV(lr)
    requires "type" in lr && !PyEq(lr["type"], StrV("exponential"))
    ensures CheckCompleteness(d["train" := PartV(train["learning_rate" := PartV(lr - {"end_value"})])]) == CheckCompleteness(d)
  {
  }

  // ---------------------------------------------------------------------------------
  // The object

  /** A ConfigPart object; its attribute dictionary includes the immutable flag. */
  class ConfigPart {
    var dict: map<string, Val>

    /** ConfigPart(**kwargs): the flag is set to False through __setattr__, then the
        keyword arguments are copied in directly, without substitution. */
    constructor (kwargs: map<string, Val>)
      ensures dict == map[ImmutableKey := BoolV(false)] + kwargs
    {
      dict := map[ImmutableKey := BoolV(false)] + kwargs;
    }

    /** Config(): the default sections. Nested parts are values, so each section is
        filled before it is stored; the result is the dictionary the source builds in place. */
    constructor Config(env: Env)
      ensures dict == Defaults()
    {
      dict := map[];
      new;
      var train := TrainSection(env);
      var err := SetAttr("train", train, env);
      var arch := ArchSection(env);
      err := SetAttr("arch", arch, env);
      var problem := ProblemSection(env);
      err := SetAttr("problem", problem, env);
      err := SetAttr(ImmutableKey, BoolV(false), env);
    }

    /** The immutable flag is set. */
    predicate IsFrozen()
      reads this
    {
      ImmutableKey in dict && Truthy(dict[ImmutableKey])
    }

    /** __setattr__(key, value): the two substitution loops over the environment, then
        the unresolved check, then the store. */
    method SetAttr(key: string, value: Val, env: Env) returns (err: Option<ConfigError>)
      modifies this
      ensures dict == SetAttrSpec(old(dict), key, value, env).fields
      ensures err == SetAttrSpec(old(dict), key, value, env).err
    {
      if ImmutableKey !in dict {
        dict := dict[ImmutableKey := BoolV(false)];
      }
      if Truthy(dict[ImmutableKey]) {
        return Some(Frozen);
      }
      if !value.StrV? {
        dict := dict[key := value];
        return None;
      }
      var s := value.s;
      for k := 0 to |env|
        invariant DollarPass(s, env[k..]) == DollarPass(value.s, env)
      {
        assert env[k..][1..] == env[k + 1..];
        s := Replace(s, "$" + env[k].0, ForwardSlashes(env[k].1));
      }
      assert env[|env|..] == [];
      for k := 0 to |env|
        invariant PercentPass(s, env[k..]) == Substitute(value.s, env)
      {
        assert env[k..][1..] == env[k + 1..];
        s := Replace(s, "%" + env[k].0 + "%", ForwardSlashes(env[k].1));
      }
      if '%' in s || '$' in s {
        return Some(Unresolved(s));
      }
      dict := dict[key := StrV(s)];
      return None;
    }

    /** Setting the immutable flag through __setattr__ freezes the part: every later write
        is refused and leaves the dictionary as it is. */
    method Freeze(env: Env) returns (err: Option<ConfigError>)
      modifies this
      ensures old(IsFrozen()) ==> err == Some(Frozen) && dict == old(dict)
      ensures !old(IsFrozen()) ==> err == None && dict == old(dict)[ImmutableKey := BoolV(true)] && IsFrozen()
    {
      err := SetAttr(ImmutableKey, BoolV(true), env);
    }

    /** __eq__: every own key is in the other part with an equal value, then every key
        of the other part is an own key. */
    method Equals(other: ConfigPart) returns (eq: bool)
      ensures eq == FieldsEq(dict, other.dict)
    {
      var keys := dict.Keys;
      while keys != {}
        invariant keys <= dict.Keys
        invariant forall k :: k in dict && k !in keys ==> k in other.dict && PyEq(dict[k], other.dict[k])
        decreases keys
      {
        var k :| k in keys;
        if k !in other.dict || !PyEq(dict[k], other.dict[k]) {
          return false;
        }
        keys := keys - {k};
      }
      keys := other.dict.Keys;
      while keys != {}
        invariant keys <= other.dict.Keys
        invariant forall k :: k in other.dict && k !in keys ==> k in dict
        decreases keys
      {
        var k :| k in keys;
        if k !in dict {
          return false;
        }
        keys := keys - {k};
      }
      return true;
    }
  }

  /** self.train.learning_rate. */
  method LearningRateSection(env: Env) returns (v: Val)
    ensures v == PartV(DefaultLearningRate())
  {
    var lr := new ConfigPart(map[]);
    var err := lr.SetAttr("type", StrV("const"), env);
    PlainStringUnchanged("const", env);
    err := lr.SetAttr("start_value", RealV(0.001), env);
    err := lr.SetAttr("end_value", RealV(0.0001), env);
    v := PartV(lr.dict);
  }

  /** self.train.optimizer. */
  method OptimizerSection(env: Env) returns (v: Val)
    ensures v == PartV(DefaultOptimizer())
  {
    var optimizer := new ConfigPart(map[]);
    var err := optimizer.SetAttr("type", StrV("adam"), env);
    PlainStringUnchanged("adam", env);
    v := PartV(optimizer.dict);
  }

  /** self.train. */
  method TrainSection(env: Env) returns (v: Val)
    ensures v == PartV(DefaultTrain())
  {
    var train := new ConfigPart(map[]);
    TrainScalars(train, env);
    var lr := LearningRateSection(env);
    var err := train.SetAttr("learning_rate", lr, env);
    var optimizer := OptimizerSection(env);
    err := train.SetAttr("optimizer", optimizer, env);
    v := PartV(train.dict);
  }

  /** The plain settings of self.train, in the order the source assigns them. */
  method TrainScalars(train: ConfigPart, env: Env)
    requires train.dict == map[ImmutableKey := BoolV(false)]
    modifies train
    ensures train.dict == map[ImmutableKey := BoolV(false), "batch_size" := IntV(1), "experiment_name" := NoneV,
                              "checkpoint_path" := StrV("checkpoints"), "epochs" := IntV(50), "log_steps" := IntV(100)]
  {
    ghost var d := train.dict;
    var err := train.SetAttr("batch_size", IntV(1), env);
    StoresPlain(d, "batch_size", IntV(1), env);
    d := d["batch_size" := IntV(1)];
    err := train.SetAttr("experiment_name", NoneV, env);
    StoresPlain(d, "experiment_name", NoneV, env);
    d := d["experiment_name" := NoneV];
    err := train.SetAttr("checkpoint_path", StrV("checkpoints"), env);
    StoresPlain(d, "checkpoint_path", StrV("checkpoints"), env);
    d := d["checkpoint_path" := StrV("checkpoints")];
    err := train.SetAttr("epochs", IntV(50), env);
    StoresPlain(d, "epochs", IntV(50), env);
    d := d["epochs" := IntV(50)];
    err := train.SetAttr("log_steps", IntV(100), env);
    StoresPlain(d, "log_steps", IntV(100), env);
    d := d["log_steps" := IntV(100)];
    assert train.dict == d;
  }

  /** self.arch. */
  method ArchSection(env: Env) returns (v: Val)
    ensures v == PartV(DefaultArch())
  {
    var arch := new ConfigPart(map[]);
    var err := arch.SetAttr("model", NoneV, env);
    err := arch.SetAttr("loss", NoneV, env);
    err := arch.SetAttr("metrics", NoneV, env);
    err := arch.SetAttr("prepare", NoneV, env);
    v := PartV(arch.dict);
  }

  /** self.problem. */
  method ProblemSection(env: Env) returns (v: Val)
    ensures v == PartV(DefaultProblem())
  {
    var problem := new ConfigPart(map[]);
    var err := problem.SetAttr("base_dir", NoneV, env);
    v := PartV(problem.dict);
  }

  function DefaultLearningRate(): map<string, Val>
  {
    map[ImmutableKey := BoolV(false), "type" := StrV("const"), "start_value" := RealV(0.001), "end_value" := RealV(0.0001)]
  }

  function DefaultOptimizer(): map<string, Val>
  {
    map[ImmutableKey := BoolV(false), "type" := StrV("adam")]
  }

  function DefaultTrain(): map<string, Val>
  {
    map[ImmutableKey := BoolV(false), "batch_size" := IntV(1), "experiment_name" := NoneV,
        "checkpoint_path" := StrV("checkpoints"), "epochs" := IntV(50), "log_steps" := IntV(100),
        "learning_rate" := PartV(DefaultLearningRate()), "optimizer" := PartV(DefaultOptimizer())]
  }

  function DefaultArch(): map<string, Val>
  {
    map[ImmutableKey := BoolV(false), "model" := NoneV, "loss" := NoneV, "metrics" := NoneV, "prepare" := NoneV]
  }

  function DefaultProblem(): map<string, Val>
  {
    map[ImmutableKey := BoolV(false), "base_dir" := NoneV]
  }

  /** The dictionary Config() builds. */
  function Defaults(): map<string, Val>
  {
    map[ImmutableKey := BoolV(false), "train" := PartV(DefaultTrain()), "arch" := PartV(DefaultArch()),
        "problem" := PartV(DefaultProblem())]
  }

  /** A fresh Config fails check_completness on its first assertion about the user's own
      settings: the experiment name is None. */
  lemma DefaultsIncomplete()
    ensures CheckCompleteness(Defaults()) == Some(["train", "experiment_name"])
    ensures !Complete(Defaults())
  {
    CompletenessIff(Defaults());
  }

  /** Once the experiment name, the model, the loss, the metrics, the preparation and the
      base directory are set to something other than None, the defaults are complete (the
      constant schedule needs no end value). */
  lemma FilledDefaultsComplete(name: Val, model: Val, loss: Val, metrics: Val, prepare: Val, baseDir: Val)
    requires !name.NoneV? && !model.NoneV? && !loss.NoneV? && !metrics.NoneV? && !prepare.NoneV? && !baseDir.NoneV?
    ensures var d := Defaults()["train" := PartV(DefaultTrain()["experiment_name" := name])]
                               ["arch" := PartV(DefaultArch()["model" := model]["loss" := loss]["metrics" := metrics]["prepare" := prepare])]
                               ["problem" := PartV(DefaultProblem()["base_dir" := baseDir])];
            CheckCompleteness(d) == None && Complete(d)
  {
    var d := Defaults()["train" := PartV(DefaultTrain()["experiment_name" := name])]
                       ["arch" := PartV(DefaultArch()["model" := model]["loss" := loss]["metrics" := metrics]["prepare" := prepare])]
                       ["problem" := PartV(DefaultProblem()["base_dir" := baseDir])];
    FilledTrainPasses(d, name);
    FilledArchPasses(d, model, loss, metrics, prepare);
    assert CheckProblem(d) == None;
    CompletenessIff(d);
  }

  lemma FilledTrainPasses(d: map<string, Val>, name: Val)
    requires "train" in d && d["train"] == PartV(DefaultTrain()["experiment_name" := name]) && !name.NoneV?
    ensures CheckTrain(d) == None
  {
  }

  lemma FilledArchPasses(d: map<string, Val>, model: Val, loss: Val, metrics: Val, prepare: Val)
    requires !model.NoneV? && !loss.NoneV? && !metrics.NoneV? && !prepare.NoneV?
    requires "arch" in d && d["arch"] == PartV(DefaultArch()["model" := model]["loss" := loss]["metrics" := metrics]["prepare" := prepare])
    ensures CheckArch(d) == None
  {
  }
}
