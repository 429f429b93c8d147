/** Configuration loading: where the YAML file is looked for, when loading
    fails, and how `FOREX_AI_*` environment variables override settings.
    The file system is the set of paths that exist, the environment a map
    from variable names to values, and the YAML parser a function from a
    path to the document it holds. */
module Config {
  import opened Wrappers
  import opened Text

  // ---------------------------------------------------------------------
  // get_config_path
  // ---------------------------------------------------------------------

  /** Where the code lives: the package directory (`drl_forex_trading_internal`)
      and the project directory above it. */
  datatype Layout = Layout(moduleRoot: string, projectRoot: string)

  /** The environment variable naming an extra configuration directory. */
  const ConfigDirVariable: string := "FOREX_AI_CONFIG_DIR"

  /** `dir / "<name>.yml"`. */
  function FileIn(dir: string, name: string): string {
    dir + "/" + name + ".yml"
  }

  function ModuleFile(l: Layout, name: string): string {
    FileIn(l.moduleRoot + "/config", name)
  }

  function ProjectFile(l: Layout, name: string): string {
    FileIn(l.projectRoot + "/config", name)
  }

  /** The places searched, in order; the directory from the environment only
      when the variable is set. */
  function Candidates(l: Layout, env: map<string, string>, name: string): (cs: seq<string>)
    ensures |cs| == if ConfigDirVariable in env then 3 else 2
  {
    [ModuleFile(l, name), ProjectFile(l, name)]
    + (if ConfigDirVariable in env then [FileIn(env[ConfigDirVariable], name)] else [])
  }

  /** Reference definition of the search: the first candidate that exists,
      `fallback` when none does. */
  function FirstExisting(cs: seq<string>, files: set<string>, fallback: string): (p: string)
    ensures p in cs || p == fallback
    ensures (exists i :: 0 <= i < |cs| && cs[i] in files) ==> p in cs && p in files
    ensures (forall i :: 0 <= i < |cs| ==> cs[i] !in files) ==> p == fallback
  {
    if |cs| == 0 then fallback
    else if cs[0] in files then cs[0]
    else
      assert forall i :: 1 <= i < |cs| ==> cs[i] == cs[1..][i - 1];
      FirstExisting(cs[1..], files, fallback)
  }

  /** `get_config_path`: the package's `config` directory, then the
      project's, then `$FOREX_AI_CONFIG_DIR`; the package path again when
      none of them holds the file. */
  function ConfigPath(l: Layout, env: map<string, string>, files: set<string>, name: string): (p: string)
    ensures p == ModuleFile(l, name) || p == ProjectFile(l, name)
            || (ConfigDirVariable in env && p == FileIn(env[ConfigDirVariable], name))
    ensures p in files <==> exists c :: c in Candidates(l, env, name) && c in files
  {
    if ModuleFile(l, name) in files then ModuleFile(l, name)
    else if ProjectFile(l, name) in files then ProjectFile(l, name)
    else if ConfigDirVariable in env && FileIn(env[ConfigDirVariable], name) in files then
      FileIn(env[ConfigDirVariable], name)
    else ModuleFile(l, name)
  }

  /** The search returns the first existing candidate in order, and the
      package path when none exists. */
  lemma ConfigPathIsFirstExisting(l: Layout, env: map<string, string>, files: set<string>, name: string)
    ensures ConfigPath(l, env, files, name) == FirstExisting(Candidates(l, env, name), files, ModuleFile(l, name))
  {
    var cs := Candidates(l, env, name);
    if ModuleFile(l, name) !in files {
      assert cs[1..][0] == ProjectFile(l, name);
      if ProjectFile(l, name) !in files && ConfigDirVariable in env {
        assert cs[1..][1..] == [FileIn(env[ConfigDirVariable], name)];
      }
    }
  }

  /** The variable is consulted only when the two fixed places lack the file. */
  lemma ConfigDirOnlyAsLastResort(l: Layout, env: map<string, string>, files: set<string>, name: string)
    requires ModuleFile(l, name) in files || ProjectFile(l, name) in files
    ensures ConfigPath(l, env, files, name) == ConfigPath(l, env - {ConfigDirVariable}, files, name)
  {
  }

  // ---------------------------------------------------------------------
  // Values and documents
  // ---------------------------------------------------------------------

  /** A scalar of the configuration. */
  datatype Value = VInt(i: int) | VReal(r: real) | VStr(s: string) | VBool(b: bool) | VNone

  /** A top-level entry of the YAML document: a section (a mapping of keys
      to scalars) or anything else, such as a scalar or a list. */
  datatype Node = Section(entries: map<string, Value>) | Leaf(v: Value)

  /** The YAML document: top-level names to entries. */
  type Document = map<string, Node>

  // ---------------------------------------------------------------------
  // Value conversion
  // ---------------------------------------------------------------------

  function Pow10(n: nat): (p: nat)
    ensures p >= 1
  {
    if n == 0 then 1 else 10 * Pow10(n - 1)
  }

  /** `s.replace(".", "", 1)`: the text with its first dot removed. */
  function DropFirstDot(s: string): (r: string)
    ensures '.' !in s ==> r == s
    ensures '.' in s ==> |r| == |s| - 1
  {
    var head := SplitHead(s, '.');
    if |head| < |s| then head + s[|head| + 1..] else s
  }

  /** The number `whole.frac` denotes, either part possibly empty. */
  function DecimalValue(whole: string, frac: string): real
    requires forall i :: 0 <= i < |whole| ==> IsDigit(whole[i])
    requires forall i :: 0 <= i < |frac| ==> IsDigit(frac[i])
  {
    DigitsValue(whole) as real + DigitsValue(frac) as real / Pow10(|frac|) as real
  }

  /** The conversion of an overriding value: digits become an integer, digits
      with one dot inside become a number, everything else stays text.
      Floats are kept exact (binary rounding is not modelled). */
  function Classify(s: string): (v: Value)
    ensures v.VInt? <==> IsDigits(s)
    ensures v.VReal? <==> !IsDigits(s) && IsDigits(DropFirstDot(s))
    ensures v.VStr? <==> !IsDigits(s) && !IsDigits(DropFirstDot(s))
    ensures v.VStr? ==> v.s == s
    ensures v.VInt? ==> v.i >= 0
  {
    if IsDigits(s) then VInt(DigitsValue(s))
    else if IsDigits(DropFirstDot(s)) then
      var head := SplitHead(s, '.');
      assert |head| < |s|;
      var frac := s[|head| + 1..];
      var joined := head + frac;
      assert joined == DropFirstDot(s);
      assert forall i :: 0 <= i < |head| ==> head[i] == joined[i];
      assert forall i :: 0 <= i < |frac| ==> frac[i] == joined[|head| + i];
      VReal(DecimalValue(head, frac))
    else VStr(s)
  }

  /** `str(n)` converts back to `n`. */
  lemma ClassifyRendered(n: nat)
    ensures Classify(NatToString(n)) == VInt(n)
  {
    NatToStringRoundTrip(n);
  }

  /** A sign, an empty value and a second dot all keep the value as text. */
  lemma ClassifyKeepsText()
    ensures Classify("-5") == VStr("-5")
    ensures Classify("") == VStr("")
    ensures Classify("1.2.3") == VStr("1.2.3")
  {
    assert !IsDigit('-') && !IsDigit('.');
    assert "-5"[0] == '-';
    assert SplitHead("-5", '.') == "-5" by {
      assert SplitHead("", '.') == "";
      assert SplitHead("5", '.') == "5" by { assert "5"[1..] == ""; }
      assert "-5"[1..] == "5";
    }
    assert DropFirstDot("-5") == "-5";
    assert SplitHead("1.2.3", '.') == "1" by {
      assert "1.2.3"[1..] == ".2.3";
    }
    assert DropFirstDot("1.2.3") == "12.3" by {
      assert "1.2.3"[2..] == "2.3";
    }
    assert "12.3"[2] == '.';
  }

  /** Digits around a single dot become the number they denote. */
  lemma ClassifyDecimal()
    ensures Classify("1.5") == VReal(1.5)
    ensures Classify(".25") == VReal(0.25)
  {
    ClassifyOnePointFive();
    ClassifyPointTwoFive();
  }

  /** "1.5" reads as 1.5. */
  lemma ClassifyOnePointFive()
    ensures Classify("1.5") == VReal(1.5)
  {
    assert SplitHead("1.5", '.') == "1" by { assert "1.5"[1..] == ".5"; }
    assert DropFirstDot("1.5") == "15" by { assert "1.5"[2..] == "5"; }
    assert IsDigits("15");
    assert DigitsValue("1") == 1 by { assert "1"[..0] == ""; }
    assert DigitsValue("5") == 5 by { assert "5"[..0] == ""; }
  }

  /** ".25", with no digits before the dot, reads as 0.25. */
  lemma ClassifyPointTwoFive()
    ensures Classify(".25") == VReal(0.25)
  {
    assert !IsDigits(".25") by { assert !IsDigit(".25"[0]); }
    assert SplitHead(".25", '.') == "";
    assert DropFirstDot(".25") == "25" by { assert ".25"[1..] == "25"; }
    assert IsDigits("25");
    assert DigitsValue("") == 0;
    assert DigitsValue("25") == 25 by {
      assert "25"[..1] == "2";
      assert DigitsValue("2") == 2 by { assert "2"[..0] == ""; }
    }
    assert Pow10(2) == 100;
    assert DecimalValue("", "25") == 0.25;
  }

  // ---------------------------------------------------------------------
  // _override_with_env_vars
  // ---------------------------------------------------------------------

  /** One override: the variable and the (section, key) it sets. */
  datatype Mapping = Mapping(variable: string, section: string, key: string)

  /** The eleven overrides, in the order the combined dictionary lists them. */
  function Mappings(prefix: string): (ms: seq<Mapping>)
    ensures |ms| == 11
  {
    [ Mapping(prefix + "_DB_HOST", "database", "host"),
      Mapping(prefix + "_DB_PORT", "database", "port"),
      Mapping(prefix + "_DB_NAME", "database", "name"),
      Mapping(prefix + "_DB_USER", "database", "user"),
      Mapping(prefix + "_DB_PASSWORD", "database", "password"),
      Mapping(prefix + "_MT5_SERVER", "mt5", "server"),
      Mapping(prefix + "_MT5_LOGIN", "mt5", "login"),
      Mapping(prefix + "_MT5_PASSWORD", "mt5", "password"),
      Mapping(prefix + "_PATH_MODELS", "paths", "models"),
      Mapping(prefix + "_PATH_LOGS", "paths", "logs"),
      Mapping(prefix + "_PATH_DATA", "paths", "data") ]
  }

  /** The prefix `load_config` uses. */
  const Prefix: string := "FOREX_AI"

  /** What assigning a key into an entry that is not a mapping raises. */
  const AssignmentError: string := "TypeError: object does not support item assignment"

  /** One override applied: nothing when the variable is unset or the
      section absent; assigning into an entry that is not a mapping raises. */
  function ApplyOne(d: Document, env: map<string, string>, m: Mapping): (r: Result<Document>)
    ensures r.Ok? ==> r.value.Keys == d.Keys
    ensures r.Raised? ==> r == Raised(AssignmentError)
  {
    if m.variable !in env || m.section !in d then Ok(d)
    else match d[m.section]
      case Leaf(_) => Raised(AssignmentError)
      case Section(t) => Ok(d[m.section := Section(t[m.key := Classify(env[m.variable])])])
  }

  /** The overrides applied in order; the first failing one ends the loop. */
  function ApplyAll(d: Document, env: map<string, string>, ms: seq<Mapping>): (r: Result<Document>)
    ensures r.Ok? ==> r.value.Keys == d.Keys
    ensures r.Raised? ==> r == Raised(AssignmentError)
  {
    if |ms| == 0 then Ok(d)
    else match ApplyOne(d, env, ms[0])
      case Raised(e) => Raised(e)
      case Ok(d1) => ApplyAll(d1, env, ms[1..])
  }

  /** `_override_with_env_vars`. */
  function OverrideWithEnv(d: Document, env: map<string, string>, prefix: string): (r: Result<Document>)
    ensures r.Ok? ==> r.value.Keys == d.Keys
    ensures r.Raised? ==> r == Raised(AssignmentError)
  {
    ApplyAll(d, env, Mappings(prefix))
  }

  /** Whether an override fires on `d` and hits an entry that is not a section. */
  predicate HitsLeaf(d: Document, env: map<string, string>, m: Mapping) {
    m.variable in env && m.section in d && d[m.section].Leaf?
  }

  /** The value the overrides give to `key` of `section`, if any: the last
      mapping for that place whose variable is set. */
  function Override(ms: seq<Mapping>, env: map<string, string>, section: string, key: string): (o: Option<Value>)
    ensures o.Some? <==> exists m :: m in ms && m.variable in env && m.section == section && m.key == key
  {
    if |ms| == 0 then None
    else
      var later := Override(ms[1..], env, section, key);
      assert forall m :: m in ms[1..] ==> m in ms;
      if later.Some? then later
      else if ms[0].variable in env && ms[0].section == section && ms[0].key == key then
        Some(Classify(env[ms[0].variable]))
      else
        assert forall m :: m in ms ==> m == ms[0] || m in ms[1..];
        None
  }

  /** A section after the overrides: the keys it had plus the keys set, the
      set ones with their override, the others unchanged. */
  ghost predicate Patched(before: map<string, Value>, after: map<string, Value>, section: string,
                    env: map<string, string>, ms: seq<Mapping>) {
    forall k ::
      && (k in after <==> k in before || Override(ms, env, section, k).Some?)
      && (k in after && Override(ms, env, section, k).None? ==> k in before && after[k] == before[k])
      && (Override(ms, env, section, k).Some? ==> k in after && after[k] == Override(ms, env, section, k).value)
  }

  /** The overrides raise exactly when one of them fires on an entry that is
      not a mapping. */
  lemma {:induction false} ApplyAllRaises(d: Document, env: map<string, string>, ms: seq<Mapping>)
    ensures ApplyAll(d, env, ms).Raised? <==> exists m :: m in ms && HitsLeaf(d, env, m)
  {
    if |ms| > 0 {
      var m0 := ms[0];
      assert forall m :: m in ms <==> m == m0 || m in ms[1..];
      match ApplyOne(d, env, m0)
      case Raised(_) =>
        assert HitsLeaf(d, env, m0);
      case Ok(d1) =>
        ApplyAllRaises(d1, env, ms[1..]);
        assert forall m :: HitsLeaf(d1, env, m) <==> HitsLeaf(d, env, m) by {
          forall m ensures HitsLeaf(d1, env, m) <==> HitsLeaf(d, env, m) {
            if m.section in d && m0.section == m.section && m0.variable in env {
              assert d[m.section].Section?;
            }
          }
        }
        assert !HitsLeaf(d, env, m0);
    }
  }

  /** A successful override run keeps every name, leaves non-mapping
      entries alone, and patches every section with exactly its overrides. */
  lemma {:induction false} ApplyAllPatches(d: Document, env: map<string, string>, ms: seq<Mapping>)
    requires ApplyAll(d, env, ms).Ok?
    ensures var r := ApplyAll(d, env, ms).value;
            && r.Keys == d.Keys
            && (forall s :: s in d && d[s].Leaf? ==> r[s] == d[s])
            && (forall s :: s in d && d[s].Section? ==> r[s].Section? && Patched(d[s].entries, r[s].entries, s, env, ms))
  {
    var r := ApplyAll(d, env, ms).value;
    if |ms| == 0 {
      forall s | s in d && d[s].Section? ensures Patched(d[s].entries, r[s].entries, s, env, ms) {
      }
    } else {
      var m0 := ms[0];
      var d1 := ApplyOne(d, env, m0).value;
      ApplyAllPatches(d1, env, ms[1..]);
      assert r == ApplyAll(d1, env, ms[1..]).value;
      forall s | s in d && d[s].Leaf? ensures r[s] == d[s] {
        assert d1[s] == d[s];
      }
      forall s | s in d && d[s].Section? ensures r[s].Section? && Patched(d[s].entries, r[s].entries, s, env, ms) {
        assert d1[s].Section?;
        forall k
          ensures k in r[s].entries <==> k in d[s].entries || Override(ms, env, s, k).Some?
          ensures k in r[s].entries && Override(ms, env, s, k).None? ==>
                    k in d[s].entries && r[s].entries[k] == d[s].entries[k]
          ensures Override(ms, env, s, k).Some? ==>
                    k in r[s].entries && r[s].entries[k] == Override(ms, env, s, k).value
        {
          assert Patched(d1[s].entries, r[s].entries, s, env, ms[1..]);
        }
      }
    }
  }

  /** Variables other than the mapped ones have no effect. */
  lemma {:induction false} OnlyMappedVariablesMatter(d: Document, env1: map<string, string>,
                                                      env2: map<string, string>, ms: seq<Mapping>)
    requires forall m :: m in ms ==> (m.variable in env1 <==> m.variable in env2)
    requires forall m :: m in ms && m.variable in env1 ==> env1[m.variable] == env2[m.variable]
    ensures ApplyAll(d, env1, ms) == ApplyAll(d, env2, ms)
  {
    if |ms| > 0 {
      assert ms[0] in ms;
      assert forall m :: m in ms[1..] ==> m in ms;
      if ApplyOne(d, env1, ms[0]).Ok? {
        OnlyMappedVariablesMatter(ApplyOne(d, env1, ms[0]).value, env1, env2, ms[1..]);
      }
    }
  }

  /** No two overrides set the same place. */
  predicate DistinctTargets(ms: seq<Mapping>) {
    forall i, j :: 0 <= i < j < |ms| ==> (ms[i].section, ms[i].key) != (ms[j].section, ms[j].key)
  }

  lemma MappingsDistinct(prefix: string)
    ensures DistinctTargets(Mappings(prefix))
  {
  }

  /** With distinct targets, each mapped place gets its own variable's
      converted value, exactly when that variable is set. */
  lemma {:induction false} OverrideOfTarget(ms: seq<Mapping>, env: map<string, string>, i: int)
    requires DistinctTargets(ms) && 0 <= i < |ms|
    ensures Override(ms, env, ms[i].section, ms[i].key)
            == if ms[i].variable in env then Some(Classify(env[ms[i].variable])) else None
  {
    var s, k := ms[i].section, ms[i].key;
    var tail := ms[1..];
    assert DistinctTargets(tail) by {
      forall a, b | 0 <= a < b < |tail| ensures (tail[a].section, tail[a].key) != (tail[b].section, tail[b].key) {
        assert tail[a] == ms[a + 1] && tail[b] == ms[b + 1];
      }
    }
    if i == 0 {
      assert Override(tail, env, s, k).None? by {
        forall m | m in tail ensures !(m.section == s && m.key == k) {
          var j :| 0 <= j < |tail| && tail[j] == m;
          assert tail[j] == ms[j + 1];
        }
      }
    } else {
      assert tail[i - 1] == ms[i];
      OverrideOfTarget(tail, env, i - 1);
    }
  }

  /** The overriding of `load_config`: only the eleven places change, each
      to its variable's converted value, sections are neither created nor
      removed, and assignment into a non-mapping entry raises. */
  lemma OverrideWithEnvEffect(d: Document, env: map<string, string>, prefix: string)
    ensures OverrideWithEnv(d, env, prefix).Raised? <==> exists m :: m in Mappings(prefix) && HitsLeaf(d, env, m)
    ensures OverrideWithEnv(d, env, prefix).Ok? ==>
              var r := OverrideWithEnv(d, env, prefix).value;
              && r.Keys == d.Keys
              && (forall s :: s in d && d[s].Leaf? ==> r[s] == d[s])
              && (forall s :: s in d && d[s].Section? ==>
                    r[s].Section? && Patched(d[s].entries, r[s].entries, s, env, Mappings(prefix)))
  {
    ApplyAllRaises(d, env, Mappings(prefix));
    if OverrideWithEnv(d, env, prefix).Ok? {
      ApplyAllPatches(d, env, Mappings(prefix));
    }
  }

  /** A section the document lacks stays absent, whatever is set. */
  lemma MissingSectionNotCreated(d: Document, env: map<string, string>, prefix: string, section: string)
    requires section !in d && OverrideWithEnv(d, env, prefix).Ok?
    ensures section !in OverrideWithEnv(d, env, prefix).value
  {
  }

  /** A present section gets the key of every set variable mapped into it,
      added if it was missing, with the variable's converted value. */
  lemma PresentSectionGetsKey(d: Document, env: map<string, string>, prefix: string, i: int)
    requires 0 <= i < 11
    requires OverrideWithEnv(d, env, prefix).Ok?
    requires Mappings(prefix)[i].section in d && d[Mappings(prefix)[i].section].Section?
    requires Mappings(prefix)[i].variable in env
    ensures var m := Mappings(prefix)[i];
            var r := OverrideWithEnv(d, env, prefix).value;
            r[m.section].Section? && m.key in r[m.section].entries
            && r[m.section].entries[m.key] == Classify(env[m.variable])
  {
    var ms := Mappings(prefix);
    MappingsDistinct(prefix);
    OverrideOfTarget(ms, env, i);
    OverrideWithEnvEffect(d, env, prefix);
    var s := ms[i].section;
    var r := OverrideWithEnv(d, env, prefix).value;
    assert Patched(d[s].entries, r[s].entries, s, env, ms);
  }

  /** Places no mapping names are never touched. */
  lemma UnmappedPlaceUnchanged(d: Document, env: map<string, string>, prefix: string, section: string, key: string)
    requires section in d && d[section].Section?
    requires forall m :: m in Mappings(prefix) ==> !(m.section == section && m.key == key)
    ensures OverrideWithEnv(d, env, prefix).Ok? ==>
            var r := OverrideWithEnv(d, env, prefix).value;
            r[section].Section? && (key in r[section].entries <==> key in d[section].entries)
            && (key in d[section].entries ==> r[section].entries[key] == d[section].entries[key])
  {
    OverrideWithEnvEffect(d, env, prefix);
    if OverrideWithEnv(d, env, prefix).Ok? {
      var r := OverrideWithEnv(d, env, prefix).value;
      assert Patched(d[section].entries, r[section].entries, section, env, Mappings(prefix));
    }
  }

  // ---------------------------------------------------------------------
  // load_config
  // ---------------------------------------------------------------------

  /** `load_config`: resolve the path, refuse a missing file, parse the YAML
      (`yaml` gives each path's document) and apply the overrides. */
  function LoadConfig(l: Layout, env: map<string, string>, files: set<string>, yaml: string -> Document,
                      name: string): (r: Result<Document>)
    ensures r == Raised("FileNotFoundError") <==> forall c :: c in Candidates(l, env, name) ==> c !in files
    ensures r.Ok? ==> r.value.Keys == yaml(ConfigPath(l, env, files, name)).Keys
  {
    var path := ConfigPath(l, env, files, name);
    if path !in files then Raised("FileNotFoundError")
    else OverrideWithEnv(yaml(path), env, Prefix)
  }

  /** Loading fails only for a missing file or an override into a
      non-mapping entry; otherwise it yields the parsed document with the
      overrides applied. */
  lemma LoadConfigOutcome(l: Layout, env: map<string, string>, files: set<string>, yaml: string -> Document,
                          name: string)
    ensures var path := ConfigPath(l, env, files, name);
            LoadConfig(l, env, files, yaml, name).Raised?
            <==> path !in files || exists m :: m in Mappings(Prefix) && HitsLeaf(yaml(path), env, m)
  {
    var path := ConfigPath(l, env, files, name);
    if path in files {
      OverrideWithEnvEffect(yaml(path), env, Prefix);
    }
  }
}
