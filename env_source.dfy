/**
 * `EnvironmentVariableSource` (src/merge_conf/osenv.py): turning the
 * environment variables whose names start with a prefix into a nested
 * mapping. The environment is a parameter: a sequence of (name, value)
 * pairs in the order in which `os.environ` yields them.
 */
module EnvSource {
  import opened Wrappers
  import opened Base
  import opened ConfigTree

  type Environment = seq<(string, string)>

  // ---------------------------------------------------------------------
  // Python string operations
  // ---------------------------------------------------------------------

  /** `s.lstrip(chars)`: drops the longest leading run of characters that
      belong to the SET of characters of `chars`. */
  function LStrip(s: string, chars: string): (stripped: string)
  {
    if s != [] && s[0] in chars then LStrip(s[1..], chars) else s
  }

  /** What `lstrip` keeps is a suffix of `s`; everything it dropped belongs
      to `chars`, and what it kept does not start with one of them. */
  lemma {:induction false} LStripSpec(s: string, chars: string)
    ensures var r := LStrip(s, chars);
      |r| <= |s| && r == s[|s| - |r|..] &&
      (forall i :: 0 <= i < |s| - |r| ==> s[i] in chars) &&
      (r != [] ==> r[0] !in chars)
    decreases |s|
  {
    if s != [] && s[0] in chars {
      LStripSpec(s[1..], chars);
      var r := LStrip(s, chars);
      assert forall i :: 1 <= i < |s| - |r| ==> s[i] == s[1..][i - 1];
    }
  }

  /** `sub in s`, substring containment; the empty string occurs everywhere. */
  predicate Occurs(s: string, sub: string)
  {
    sub <= s || (s != [] && Occurs(s[1..], sub))
  }

  /** `sep.join(parts)`. */
  function Join(parts: seq<string>, sep: string): (joined: string)
    requires |parts| >= 1
  {
    if |parts| == 1 then parts[0] else parts[0] + sep + Join(parts[1..], sep)
  }

  /** `(cur + s).split(sep)` when `cur` holds no complete separator and the
      scan has reached `s`: occurrences are cut left to right and never
      overlap. */
  function SplitFrom(s: string, sep: string, cur: string): (parts: seq<string>)
    requires sep != []
    ensures |parts| >= 1
    decreases |s|
  {
    if s == [] then [cur]
    else if sep <= s then [cur] + SplitFrom(s[|sep|..], sep, [])
    else SplitFrom(s[1..], sep, cur + [s[0]])
  }

  /** `s.split(sep)` for a non-empty separator: no part contains the
      separator, so the string is cut at every occurrence. */
  function Split(s: string, sep: string): (parts: seq<string>)
    requires sep != []
    ensures |parts| >= 1
    ensures forall i :: 0 <= i < |parts| ==> !Occurs(parts[i], sep)
  {
    SplitFromPartsFree(s, sep, []);
    SplitFrom(s, sep, [])
  }

  /** Joining the parts with the separator gives back the scanned text. */
  lemma {:induction false} SplitFromJoin(s: string, sep: string, cur: string)
    requires sep != []
    ensures Join(SplitFrom(s, sep, cur), sep) == cur + s
    decreases |s|
  {
    if s == [] {
    } else if sep <= s {
      SplitFromJoin(s[|sep|..], sep, []);
      assert sep + s[|sep|..] == s;
    } else {
      SplitFromJoin(s[1..], sep, cur + [s[0]]);
      assert [s[0]] + s[1..] == s;
    }
  }

  /** `sep.join(s.split(sep)) == s`. */
  lemma SplitJoin(s: string, sep: string)
    requires sep != []
    ensures Join(Split(s, sep), sep) == s
  {
    SplitFromJoin(s, sep, []);
  }

  /** With a one-character separator that does not occur, the scan yields
      a single part. */
  lemma {:induction false} SplitFromNoSeparator(s: string, c: char, cur: string)
    requires c !in s
    ensures SplitFrom(s, [c], cur) == [cur + s]
    decreases |s|
  {
    if s != [] {
      assert s[0] in s;
      assert !([c] <= s);
      SplitFromNoSeparator(s[1..], c, cur + [s[0]]);
      assert cur + [s[0]] + s[1..] == cur + s;
    } else {
      assert cur + s == cur;
    }
  }

  /** With a one-character separator, the scan cuts at its first
      occurrence. */
  lemma {:induction false} SplitFromAtSeparator(a: string, c: char, b: string, cur: string)
    requires c !in a
    ensures SplitFrom(a + [c] + b, [c], cur) == [cur + a] + SplitFrom(b, [c], [])
    decreases |a|
  {
    if a == [] {
      assert [] + [c] + b == [c] + b;
      assert [c] <= [c] + b;
      assert ([c] + b)[|[c]|..] == b;
      assert cur + a == cur;
    } else {
      assert (a + [c] + b)[0] == a[0] && (a + [c] + b)[1..] == a[1..] + [c] + b;
      assert a[0] in a;
      assert !([c] <= a + [c] + b);
      SplitFromAtSeparator(a[1..], c, b, cur + [a[0]]);
      assert cur + [a[0]] + a[1..] == cur + a;
    }
  }

  /** With a one-character separator that no part contains, splitting the
      joined parts gives them back: `sep.join(parts).split(sep) == parts`. */
  lemma {:induction false} JoinSplit(parts: seq<string>, c: char)
    requires |parts| >= 1
    requires forall i :: 0 <= i < |parts| ==> c !in parts[i]
    ensures Split(Join(parts, [c]), [c]) == parts
    decreases |parts|
  {
    if |parts| == 1 {
      SplitFromNoSeparator(parts[0], c, []);
      assert [] + parts[0] == parts[0];
    } else {
      JoinSplit(parts[1..], c);
      SplitFromAtSeparator(parts[0], c, Join(parts[1..], [c]), []);
      assert [] + parts[0] == parts[0];
      assert parts == [parts[0]] + parts[1..];
    }
  }

  /** The split has more than one part exactly when the separator occurs. */
  lemma {:induction false} SplitFromCountIff(s: string, sep: string, cur: string)
    requires sep != []
    ensures |SplitFrom(s, sep, cur)| >= 2 <==> Occurs(s, sep)
    decreases |s|
  {
    if s == [] {
    } else if sep <= s {
    } else {
      SplitFromCountIff(s[1..], sep, cur + [s[0]]);
    }
  }

  /** An occurrence sits at some position. */
  lemma {:induction false} OccursAt(s: string, sub: string)
    ensures Occurs(s, sub) ==> exists j :: 0 <= j <= |s| && sub <= s[j..]
    decreases |s|
  {
    if !Occurs(s, sub) {
    } else if sub <= s {
      assert s[0..] == s;
    } else {
      OccursAt(s[1..], sub);
      var j :| 0 <= j <= |s[1..]| && sub <= s[1..][j..];
      assert s[1..][j..] == s[j + 1..];
    }
  }

  /** No occurrence of `sep` starts inside the pending part `cur` of the
      text `cur + s`. */
  ghost predicate NoneStartsIn(cur: string, s: string, sep: string)
  {
    forall j :: 0 <= j < |cur| ==> !(sep <= cur[j..] + s)
  }

  /** A pending part into which no occurrence reaches holds none. */
  lemma PendingPartFree(cur: string, s: string, sep: string)
    requires sep != [] && NoneStartsIn(cur, s, sep)
    ensures !Occurs(cur, sep)
  {
    OccursAt(cur, sep);
    forall j | 0 <= j < |cur| ensures !(sep <= cur[j..]) {
      assert !(sep <= cur[j..] + s);
    }
  }

  /** The scan cuts at every occurrence: no part it yields contains the
      separator. */
  lemma {:induction false} SplitFromPartsFree(s: string, sep: string, cur: string)
    requires sep != [] && NoneStartsIn(cur, s, sep)
    ensures forall i :: 0 <= i < |SplitFrom(s, sep, cur)| ==> !Occurs(SplitFrom(s, sep, cur)[i], sep)
    decreases |s|
  {
    PendingPartFree(cur, s, sep);
    if s == [] {
    } else if sep <= s {
      SplitFromPartsFree(s[|sep|..], sep, []);
    } else {
      var next := cur + [s[0]];
      forall j | 0 <= j < |next| ensures !(sep <= next[j..] + s[1..]) {
        if j < |cur| {
          assert next[j..] + s[1..] == cur[j..] + s;
        } else {
          assert next[j..] + s[1..] == s;
        }
      }
      SplitFromPartsFree(s[1..], sep, next);
    }
  }

  /** Splitting at a leading separator yields an empty first segment. */
  lemma LeadingSeparatorGivesEmptySegment(s: string, sep: string)
    requires sep != [] && sep <= s
    ensures |Split(s, sep)| >= 2 && Split(s, sep)[0] == ""
  {
  }

  /** Stripping a prefix made only of characters of `chars` and then a
      remainder strips the whole prefix away first. */
  lemma {:induction false} LStripSkipsCharsetPrefix(a: string, b: string, chars: string)
    requires forall i :: 0 <= i < |a| ==> a[i] in chars
    ensures LStrip(a + b, chars) == LStrip(b, chars)
    decreases |a|
  {
    if a == [] {
      assert a + b == b;
    } else {
      assert (a + b)[0] == a[0] && (a + b)[1..] == a[1..] + b;
      LStripSkipsCharsetPrefix(a[1..], b, chars);
    }
  }

  // ---------------------------------------------------------------------
  // The source and its two sanitizers
  // ---------------------------------------------------------------------

  /** The three settings of an `EnvironmentVariableSource`; they are set by
      the constructor and never changed. */
  datatype EnvSettings = EnvSettings(prefix: string, separator: string, listSeparator: string)

  /** `EnvironmentVariableSource(prefix, separator="_", list_separator=",")`:
      a `None` prefix is stored as `""`. */
  function NewEnvSettings(prefix: Option<string>, separator: string := "_", listSeparator: string := ","): (s: EnvSettings)
    ensures prefix.None? ==> s.prefix == ""
    ensures prefix.Some? ==> s.prefix == prefix.value
    ensures s.separator == separator && s.listSeparator == listSeparator
  {
    EnvSettings(if prefix.Some? then prefix.value else "", separator, listSeparator)
  }

  /** When the caller omits them, the separators are `_` between path
      segments and `,` between list items. */
  lemma DefaultSeparators(prefix: string)
    ensures NewEnvSettings(Some(prefix)) == EnvSettings(prefix, "_", ",")
    ensures NewEnvSettings(None) == EnvSettings("", "_", ",")
  {
  }

  /** `__sanitize_key`: strip the prefix's characters, then split into
      path segments; `split("")` raises. */
  function SanitizeKey(name: string, prefix: string, separator: string): (r: Result<seq<string>, ConfigError>)
    ensures r.Failure? <==> separator == []
    ensures r.Failure? ==> r.error == EmptySeparator
    ensures r.Success? ==> |r.value| >= 1 && Join(r.value, separator) == LStrip(name, prefix)
    ensures r.Success? ==> forall i :: 0 <= i < |r.value| ==> !Occurs(r.value[i], separator)
    ensures r.Success? ==> (|r.value| >= 2 <==> Occurs(LStrip(name, prefix), separator))
  {
    if separator == [] then Failure(EmptySeparator)
    else
      SplitJoin(LStrip(name, prefix), separator);
      SplitFromCountIff(LStrip(name, prefix), separator, []);
      Success(Split(LStrip(name, prefix), separator))
  }

  /** `__sanitize_value`: a list of the parts when the list separator occurs,
      the raw string otherwise; `split("")` raises. */
  function SanitizeValue(raw: string, listSeparator: string): (r: Result<Value, ConfigError>)
    ensures r.Failure? <==> listSeparator == []
    ensures r.Failure? ==> r.error == EmptySeparator
    ensures r.Success? && Occurs(raw, listSeparator) ==>
      r.value.Items? && |r.value.items| >= 2 && Join(r.value.items, listSeparator) == raw
    ensures r.Success? && r.value.Items? ==>
      forall i :: 0 <= i < |r.value.items| ==> !Occurs(r.value.items[i], listSeparator)
    ensures r.Success? && !Occurs(raw, listSeparator) ==> r.value == Text(raw)
  {
    if Occurs(raw, listSeparator) then
      if listSeparator == [] then Failure(EmptySeparator)
      else
        SplitFromCountIff(raw, listSeparator, []);
        SplitJoin(raw, listSeparator);
        Success(Items(Split(raw, listSeparator)))
    else
      assert listSeparator != [];
      Success(Text(raw))
  }

  // ---------------------------------------------------------------------
  // Paths in a nested mapping
  // ---------------------------------------------------------------------

  /** The value at a path of nested dicts, if every step exists and every
      step but the last is a dict. */
  function Get(m: Mapping, path: seq<string>): (found: Option<Value>)
    requires |path| >= 1
    decreases |path|
  {
    if path[0] !in m then None
    else if |path| == 1 then Some(m[path[0]])
    else if m[path[0]].Table? then Get(m[path[0]].entries, path[1..])
    else None
  }

  /** The path holds a string or a list. */
  predicate LeafAt(m: Mapping, path: seq<string>)
    requires |path| >= 1
  {
    Get(m, path).Some? && !Get(m, path).value.Table?
  }

  /** The dict the walk steps into at `key`: the existing one, or a fresh
      one when the key is absent; a string or list there makes the walk fail
      (`name` is the variable being processed). */
  function Child(m: Mapping, key: string, name: string): (r: Result<Mapping, ConfigError>)
  {
    if key !in m then Success(map[])
    else if m[key].Table? then Success(m[key].entries)
    else Failure(NotADict(name))
  }

  /** Lines 60-67: walk `path`, creating a dict for each absent intermediate
      segment and reusing an existing one, and write `v` at the last
      segment. */
  function Insert(m: Mapping, path: seq<string>, v: Value, name: string): (r: Result<Mapping, ConfigError>)
    requires |path| >= 1
    decreases |path|
  {
    if |path| == 1 then Success(m[path[0] := v])
    else
      var inner :- Child(m, path[0], name);
      var updated :- Insert(inner, path[1..], v, name);
      Success(m[path[0] := Table(updated)])
  }

  /** After a successful walk the value sits at the path, and the keys of
      the top level are the old ones plus the first segment. */
  lemma {:induction false} InsertThenGet(m: Mapping, path: seq<string>, v: Value, name: string)
    requires |path| >= 1 && Insert(m, path, v, name).Success?
    ensures Get(Insert(m, path, v, name).value, path) == Some(v)
    ensures Insert(m, path, v, name).value.Keys == m.Keys + {path[0]}
    decreases |path|
  {
    if |path| > 1 {
      var inner := Child(m, path[0], name).value;
      InsertThenGet(inner, path[1..], v, name);
    }
  }

  /** Neither path is a prefix of the other. */
  predicate Diverge(p: seq<string>, q: seq<string>)
  {
    p != [] && q != [] && (p[0] != q[0] || Diverge(p[1..], q[1..]))
  }

  /** The walk changes nothing at a path that leaves its own: an existing
      dict is reused with its other entries intact. */
  lemma {:induction false} InsertKeepsOtherPaths(m: Mapping, path: seq<string>, v: Value, name: string, q: seq<string>)
    requires |path| >= 1 && Insert(m, path, v, name).Success?
    requires Diverge(path, q)
    ensures Get(Insert(m, path, v, name).value, q) == Get(m, q)
    decreases |path|
  {
    if path[0] != q[0] {
    } else {
      var inner := Child(m, path[0], name).value;
      InsertKeepsOtherPaths(inner, path[1..], v, name, q[1..]);
    }
  }

  /** The walk fails exactly when some intermediate segment already holds a
      string or a list. */
  lemma {:induction false} InsertFailsIff(m: Mapping, path: seq<string>, v: Value, name: string)
    requires |path| >= 1
    ensures Insert(m, path, v, name).Failure? <==> exists j :: 1 <= j < |path| && LeafAt(m, path[..j])
    ensures Insert(m, path, v, name).Failure? ==> Insert(m, path, v, name).error == NotADict(name)
    decreases |path|
  {
    if |path| > 1 {
      var key := path[0];
      assert path[..1] == [key];
      if key !in m {
        InsertFailsIff(map[], path[1..], v, name);
        forall j | 1 <= j < |path| ensures !LeafAt(m, path[..j]) { }
        forall j | 1 <= j < |path| - 1 ensures !LeafAt(map[], path[1..][..j]) { }
      } else if m[key].Table? {
        var inner := m[key].entries;
        InsertFailsIff(inner, path[1..], v, name);
        forall j | 2 <= j < |path|
          ensures LeafAt(m, path[..j]) <==> LeafAt(inner, path[1..][..j - 1])
        {
          assert path[..j][1..] == path[1..][..j - 1];
        }
        if exists j :: 1 <= j < |path| && LeafAt(m, path[..j]) {
          var j :| 1 <= j < |path| && LeafAt(m, path[..j]);
          assert LeafAt(inner, path[1..][..j - 1]);
        }
        if exists j :: 1 <= j < |path| - 1 && LeafAt(inner, path[1..][..j]) {
          var j :| 1 <= j < |path| - 1 && LeafAt(inner, path[1..][..j]);
          assert LeafAt(m, path[..j + 1]);
        }
      } else {
        assert LeafAt(m, path[..1]);
      }
    }
  }

  // ---------------------------------------------------------------------
  // read()
  // ---------------------------------------------------------------------

  /** Lines 52-56: the variables whose names start with the prefix, in
      environment order. */
  function Selected(env: Environment, prefix: string): (sel: Environment)
    ensures |sel| <= |env|
    ensures forall i :: 0 <= i < |sel| ==> prefix <= sel[i].0
    decreases |env|
  {
    if env == [] then []
    else
      var front := env[..|env| - 1];
      var last := env[|env| - 1];
      if prefix <= last.0 then Selected(front, prefix) + [last] else Selected(front, prefix)
  }

  /** The filter keeps a variable exactly when it is in the environment and
      its name starts with the prefix. */
  lemma {:induction false} SelectedMembers(env: Environment, prefix: string)
    ensures forall e :: e in Selected(env, prefix) <==> e in env && prefix <= e.0
    decreases |env|
  {
    if env != [] {
      var front := env[..|env| - 1];
      var last := env[|env| - 1];
      assert env == front + [last];
      SelectedMembers(front, prefix);
    }
  }

  /** The names of a sequence of variables. */
  function Names(env: Environment): (names: seq<string>)
    ensures |names| == |env|
    ensures forall i :: 0 <= i < |env| ==> names[i] == env[i].0
    decreases |env|
  {
    if env == [] then [] else Names(env[..|env| - 1]) + [env[|env| - 1].0]
  }

  /** `mapped_variables`: the names of the selected variables. */
  function MappedVariables(env: Environment, prefix: string): (names: seq<string>)
    ensures |names| <= |env|
    ensures forall n :: n in names <==> exists i :: 0 <= i < |env| && env[i].0 == n && prefix <= n
  {
    var sel := Selected(env, prefix);
    var names := Names(sel);
    SelectedMembers(env, prefix);
    assert forall n :: n in names ==> exists i :: 0 <= i < |env| && env[i].0 == n && prefix <= n by {
      forall n | n in names ensures exists i :: 0 <= i < |env| && env[i].0 == n && prefix <= n {
        var j :| 0 <= j < |names| && names[j] == n;
        assert sel[j] in sel;
        var i :| 0 <= i < |env| && env[i] == sel[j];
      }
    }
    assert forall n :: (exists i :: 0 <= i < |env| && env[i].0 == n && prefix <= n) ==> n in names by {
      forall n | exists i :: 0 <= i < |env| && env[i].0 == n && prefix <= n ensures n in names {
        var i :| 0 <= i < |env| && env[i].0 == n && prefix <= n;
        assert env[i] in env;
        var j :| 0 <= j < |sel| && sel[j] == env[i];
        assert names[j] == n;
      }
    }
    names
  }

  /** Variables that all start with the prefix are all selected. */
  lemma {:induction false} SelectedAll(env: Environment, prefix: string)
    requires forall i :: 0 <= i < |env| ==> prefix <= env[i].0
    ensures Selected(env, prefix) == env
    decreases |env|
  {
    if env != [] {
      SelectedAll(env[..|env| - 1], prefix);
    }
  }

  /** `value_map[key]`: the value of the first variable of that name. */
  function ValueOf(env: Environment, name: string): (value: string)
  {
    if env == [] then ""
    else if env[0].0 == name then env[0].1
    else ValueOf(env[1..], name)
  }

  /** A name absent from the environment has no value (never asked for). */
  lemma {:induction false} ValueOfAbsent(env: Environment, name: string)
    requires forall i :: 0 <= i < |env| ==> env[i].0 != name
    ensures ValueOf(env, name) == ""
    decreases |env|
  {
    if env != [] {
      assert forall i :: 0 <= i < |env[1..]| ==> env[1..][i] == env[i + 1];
      ValueOfAbsent(env[1..], name);
    }
  }

  /** One iteration of the loop of lines 57-67 for a selected name. */
  function Step(cfg: EnvSettings, acc: Mapping, name: string, raw: string): (r: Result<Mapping, ConfigError>)
  {
    var path :- SanitizeKey(name, cfg.prefix, cfg.separator);
    var v :- SanitizeValue(raw, cfg.listSeparator);
    Insert(acc, path, v, name)
  }

  /** Processing the remaining selected `names` from the partial result
      `acc` on; the first failure aborts. */
  function DecomposeFrom(cfg: EnvSettings, env: Environment, names: seq<string>, acc: Mapping): (r: Result<Mapping, ConfigError>)
    decreases |names|
  {
    if names == [] then Success(acc)
    else
      var next :- Step(cfg, acc, names[0], ValueOf(env, names[0]));
      DecomposeFrom(cfg, env, names[1..], next)
  }

  /** What `read()` returns for one snapshot of the environment. */
  function Decompose(cfg: EnvSettings, env: Environment): (r: Result<Mapping, ConfigError>)
  {
    DecomposeFrom(cfg, env, MappedVariables(env, cfg.prefix), map[])
  }

  // ---------------------------------------------------------------------
  // What read() promises
  // ---------------------------------------------------------------------

  /** With an empty prefix (a `None` prefix is stored as one) every variable
      is selected, in environment order. */
  lemma EmptyPrefixSelectsAll(env: Environment)
    ensures |MappedVariables(env, "")| == |env|
    ensures forall i :: 0 <= i < |env| ==> MappedVariables(env, "")[i] == env[i].0
  {
    SelectedAll(env, "");
  }

  /** Selection is a plain prefix test, not a word-boundary match: prefix
      `DB` selects `DBHOST`, whose path is then `["HOST"]`. */
  lemma PlainPrefixMatch()
    ensures MappedVariables([("DBHOST", "h")], "DB") == ["DBHOST"]
    ensures SanitizeKey("DBHOST", "DB", "_") == Success(["HOST"])
  {
    assert 'D' in "DB" && 'B' in "DB" && 'H' !in "DB";
    assert LStrip("DBHOST", "DB") == LStrip("BHOST", "DB") == LStrip("HOST", "DB") == "HOST";
    SplitFromNoSeparator("HOST", '_', "");
    assert "" + "HOST" == "HOST";
  }

  /** Stripping removes characters of the prefix's SET: with prefix `APP`
      the name `APPPATH` keeps only `TH`, not `PATH`. */
  lemma CharacterSetStrip()
    ensures LStrip("APPPATH", "APP") == "TH"
  {
    assert 'A' in "APP" && 'P' in "APP" && 'T' !in "APP";
    assert LStrip("APPPATH", "APP") == LStrip("PPPATH", "APP") == LStrip("PPATH", "APP")
        == LStrip("PATH", "APP") == LStrip("ATH", "APP") == LStrip("TH", "APP") == "TH";
  }

  /** A name made of the prefix, a separator and a rest decomposes into a
      path whose first segment is empty (so `MYAPP_DB_HOST` does not become
      `db.host`), provided the separator does not start with a prefix
      character. */
  lemma LeadingEmptySegment(prefix: string, sep: string, rest: string)
    requires sep != [] && sep[0] !in prefix
    ensures SanitizeKey(prefix + sep + rest, prefix, sep).Success?
    ensures |SanitizeKey(prefix + sep + rest, prefix, sep).value| >= 2
    ensures SanitizeKey(prefix + sep + rest, prefix, sep).value[0] == ""
  {
    assert prefix + sep + rest == prefix + (sep + rest);
    LStripSkipsCharsetPrefix(prefix, sep + rest, prefix);
    assert LStrip(sep + rest, prefix) == sep + rest;
    LeadingSeparatorGivesEmptySegment(sep + rest, sep);
  }

  /** A name made of the prefix and the separator-joined path segments,
      the first one empty, decomposes back into exactly those segments when
      the separator is a character outside the prefix that no segment
      holds. */
  lemma KeyOfSegments(prefix: string, c: char, segments: seq<string>)
    requires |segments| >= 2 && segments[0] == "" && c !in prefix
    requires forall i :: 0 <= i < |segments| ==> c !in segments[i]
    ensures SanitizeKey(prefix + Join(segments, [c]), prefix, [c]) == Success(segments)
  {
    var joined := Join(segments, [c]);
    assert joined == [c] + Join(segments[1..], [c]);
    LStripSkipsCharsetPrefix(prefix, joined, prefix);
    assert LStrip(joined, prefix) == joined;
    JoinSplit(segments, c);
  }

  /** A name equal to the prefix decomposes into the single empty segment. */
  lemma NameEqualToPrefix(prefix: string, sep: string)
    requires sep != []
    ensures SanitizeKey(prefix, prefix, sep) == Success([""])
  {
    assert prefix + [] == prefix;
    LStripSkipsCharsetPrefix(prefix, [], prefix);
  }

  /** For a one-character separator, `sep in s` is character membership. */
  lemma {:induction false} OccursChar(s: string, c: char)
    ensures Occurs(s, [c]) <==> c in s
    decreases |s|
  {
    if s != [] {
      OccursChar(s[1..], c);
      assert s == [s[0]] + s[1..];
      assert [c] <= s <==> s[0] == c;
    }
  }

  /** `APP_DB_<field>` under prefix `APP` is the path `["", "DB", field]`
      when the field holds no `_`. */
  lemma ExampleKey(field: string)
    requires '_' !in field
    ensures SanitizeKey("APP_DB_" + field, "APP", "_") == Success(["", "DB", field])
  {
    var parts := ["", "DB", field];
    assert Join(parts, "_") == "_DB_" + field by {
      assert parts[1..] == ["DB", field] && parts[1..][1..] == [field];
      assert Join(parts[1..], "_") == "DB" + "_" + field;
      assert "" + "_" + ("DB" + "_" + field) == "_DB_" + field;
    }
    assert "APP_DB_" + field == "APP" + Join(parts, "_");
    LStripSkipsCharsetPrefix("APP", Join(parts, "_"), "APP");
    assert LStrip(Join(parts, "_"), "APP") == Join(parts, "_");
    assert forall i :: 0 <= i < |parts| ==> '_' !in parts[i];
    JoinSplit(parts, '_');
  }

  /** Decomposing `APP_DB_HOST=localhost` into an empty result. */
  lemma ExampleHostStep()
    ensures Step(EnvSettings("APP", "_", ","), map[], "APP_DB_HOST", "localhost")
         == Success(map["" := Table(map["DB" := Table(map["HOST" := Text("localhost")])])])
  {
    ExampleKey("HOST");
    assert "APP_DB_" + "HOST" == "APP_DB_HOST";
    OccursChar("localhost", ',');
    var path := ["", "DB", "HOST"];
    assert path[1..] == ["DB", "HOST"] && path[1..][1..] == ["HOST"];
  }

  /** `5432,5433` holds the list separator `,` and becomes a list. */
  lemma ExamplePortsValue()
    ensures SanitizeValue("5432,5433", ",") == Success(Items(["5432", "5433"]))
  {
    var ports := ["5432", "5433"];
    assert Join(ports, ",") == "5432,5433";
    JoinSplit(ports, ',');
    OccursChar("5432,5433", ',');
    assert "5432,5433"[4] == ',';
  }

  /** Writing a list at `["", "DB", "PORTS"]` reuses the two dicts that
      the walk finds on the way. */
  lemma ExamplePortsInsert(ports: Value)
    ensures Insert(map["" := Table(map["DB" := Table(map["HOST" := Text("localhost")])])],
                   ["", "DB", "PORTS"], ports, "APP_DB_PORTS")
         == Success(map["" := Table(map["DB" := Table(map["HOST" := Text("localhost"), "PORTS" := ports])])])
  {
    var path := ["", "DB", "PORTS"];
    assert path[1..] == ["DB", "PORTS"] && path[1..][1..] == ["PORTS"];
    var host := map["HOST" := Text("localhost")];
    var db := map["DB" := Table(host)];
    var acc := map["" := Table(db)];
    assert Child(acc, "", "APP_DB_PORTS") == Success(db);
    assert Child(db, "DB", "APP_DB_PORTS") == Success(host);
    var leaves := map["HOST" := Text("localhost"), "PORTS" := ports];
    assert host["PORTS" := ports] == leaves;
    assert Insert(host, ["PORTS"], ports, "APP_DB_PORTS") == Success(leaves);
    assert db["DB" := Table(leaves)] == map["DB" := Table(leaves)];
    assert Insert(db, ["DB", "PORTS"], ports, "APP_DB_PORTS") == Success(map["DB" := Table(leaves)]);
    assert acc["" := Table(map["DB" := Table(leaves)])] == map["" := Table(map["DB" := Table(leaves)])];
  }

  /** Decomposing `APP_DB_PORTS=5432,5433` after `APP_DB_HOST`: the
      existing dicts are reused. */
  lemma ExamplePortsStep()
    ensures Step(EnvSettings("APP", "_", ","),
                 map["" := Table(map["DB" := Table(map["HOST" := Text("localhost")])])],
                 "APP_DB_PORTS", "5432,5433")
         == Success(map["" := Table(map["DB" := Table(map["HOST" := Text("localhost"),
                                                          "PORTS" := Items(["5432", "5433"])])])])
  {
    ExampleKey("PORTS");
    assert "APP_DB_" + "PORTS" == "APP_DB_PORTS";
    ExamplePortsValue();
    ExamplePortsInsert(Items(["5432", "5433"]));
  }

  /** `OTHER` does not start with `APP`, the other two do. */
  lemma ExampleMapped()
    ensures MappedVariables([("APP_DB_HOST", "localhost"), ("APP_DB_PORTS", "5432,5433"), ("OTHER", "x")], "APP")
         == ["APP_DB_HOST", "APP_DB_PORTS"]
  {
    var env := [("APP_DB_HOST", "localhost"), ("APP_DB_PORTS", "5432,5433"), ("OTHER", "x")];
    var front := [("APP_DB_HOST", "localhost"), ("APP_DB_PORTS", "5432,5433")];
    assert "OTHER"[0] != "APP"[0];
    assert env[..2] == front;
    SelectedAll(front, "APP");
    assert Selected(env, "APP") == front;
  }

  /** An example in the style of the module docstring, under prefix `APP`
      with the default separators: `APP_DB_HOST=localhost`, `APP_DB_PORTS=5432,5433`
      and `OTHER=x` give `{"": {"DB": {"HOST": "localhost", "PORTS":
      ["5432", "5433"]}}}`, with a leading empty segment, not `db.host`. */
  lemma DecomposeExample()
    ensures Decompose(EnvSettings("APP", "_", ","),
                      [("APP_DB_HOST", "localhost"), ("APP_DB_PORTS", "5432,5433"), ("OTHER", "x")])
         == Success(map["" := Table(map["DB" := Table(map["HOST" := Text("localhost"),
                                                          "PORTS" := Items(["5432", "5433"])])])])
  {
    var cfg := EnvSettings("APP", "_", ",");
    var env := [("APP_DB_HOST", "localhost"), ("APP_DB_PORTS", "5432,5433"), ("OTHER", "x")];
    var names := ["APP_DB_HOST", "APP_DB_PORTS"];
    ExampleMapped();
    assert ValueOf(env, "APP_DB_HOST") == "localhost";
    assert ValueOf(env, "APP_DB_PORTS") == "5432,5433";
    ExampleHostStep();
    ExamplePortsStep();
    assert names[1..] == ["APP_DB_PORTS"] && names[1..][1..] == [];
  }

  /** `APP_A` and `APP_A_B` under prefix `APP`. */
  lemma ExampleShortKeys()
    ensures SanitizeKey("APP_A", "APP", "_") == Success(["", "A"])
    ensures SanitizeKey("APP_A_B", "APP", "_") == Success(["", "A", "B"])
  {
    var short := ["", "A"];
    assert "APP" + Join(short, "_") == "APP_A";
    KeyOfSegments("APP", '_', short);
    var long := ["", "A", "B"];
    assert Join(long, "_") == "_A_B" by {
      assert long[1..] == ["A", "B"] && long[1..][1..] == ["B"];
    }
    assert "APP" + Join(long, "_") == "APP_A_B";
    KeyOfSegments("APP", '_', long);
  }

  /** `APP_A_B=1` into an empty result. */
  lemma ExampleBranchFirst()
    ensures Step(EnvSettings("APP", "_", ","), map[], "APP_A_B", "1")
         == Success(map["" := Table(map["A" := Table(map["B" := Text("1")])])])
  {
    ExampleShortKeys();
    OccursChar("1", ',');
    var path := ["", "A", "B"];
    assert path[1..] == ["A", "B"] && path[1..][1..] == ["B"];
  }

  /** `APP_A=2` after `APP_A_B=1`. */
  lemma ExampleLeafSecond()
    ensures Step(EnvSettings("APP", "_", ","), map["" := Table(map["A" := Table(map["B" := Text("1")])])], "APP_A", "2")
         == Success(map["" := Table(map["A" := Text("2")])])
  {
    ExampleShortKeys();
    OccursChar("2", ',');
    var acc := map["" := Table(map["A" := Table(map["B" := Text("1")])])];
    var path := ["", "A"];
    assert path[1..] == ["A"];
    assert Child(acc, "", "APP_A") == Success(map["A" := Table(map["B" := Text("1")])]);
    var inner := map["A" := Table(map["B" := Text("1")])];
    assert inner["A" := Text("2")] == map["A" := Text("2")];
    assert Insert(inner, ["A"], Text("2"), "APP_A") == Success(map["A" := Text("2")]);
    assert acc["" := Table(map["A" := Text("2")])] == map["" := Table(map["A" := Text("2")])];
    assert Insert(acc, path, Text("2"), "APP_A") == Success(map["" := Table(map["A" := Text("2")])]);
  }

  /** `APP_A=2` into an empty result. */
  lemma ExampleLeafFirst()
    ensures Step(EnvSettings("APP", "_", ","), map[], "APP_A", "2")
         == Success(map["" := Table(map["A" := Text("2")])])
  {
    ExampleShortKeys();
    OccursChar("2", ',');
    var path := ["", "A"];
    assert path[1..] == ["A"];
  }

  /** `APP_A_B=1` after `APP_A=2`: the walk meets the string at `A`. */
  lemma ExampleBranchSecond()
    ensures Step(EnvSettings("APP", "_", ","), map["" := Table(map["A" := Text("2")])], "APP_A_B", "1")
         == Failure(NotADict("APP_A_B"))
  {
    ExampleShortKeys();
    OccursChar("1", ',');
    var path := ["", "A", "B"];
    assert path[1..] == ["A", "B"];
    assert Child(map["" := Table(map["A" := Text("2")])], "", "APP_A_B") == Success(map["A" := Text("2")]);
    assert Child(map["A" := Text("2")], "A", "APP_A_B") == Failure(NotADict("APP_A_B"));
  }

  /** Both names start with `APP`, in either order. */
  lemma ExampleCollisionNames()
    ensures MappedVariables([("APP_A_B", "1"), ("APP_A", "2")], "APP") == ["APP_A_B", "APP_A"]
    ensures MappedVariables([("APP_A", "2"), ("APP_A_B", "1")], "APP") == ["APP_A", "APP_A_B"]
    ensures ValueOf([("APP_A_B", "1"), ("APP_A", "2")], "APP_A_B") == "1"
    ensures ValueOf([("APP_A_B", "1"), ("APP_A", "2")], "APP_A") == "2"
    ensures ValueOf([("APP_A", "2"), ("APP_A_B", "1")], "APP_A") == "2"
    ensures ValueOf([("APP_A", "2"), ("APP_A_B", "1")], "APP_A_B") == "1"
  {
    SelectedAll([("APP_A_B", "1"), ("APP_A", "2")], "APP");
    SelectedAll([("APP_A", "2"), ("APP_A_B", "1")], "APP");
  }

  /** A later, shorter name whose path ends at an existing dict replaces
      that dict by a string: `APP_A_B=1` then `APP_A=2` give
      `{"": {"A": "2"}}`. */
  lemma ShorterNameReplacesBranch()
    ensures Decompose(EnvSettings("APP", "_", ","), [("APP_A_B", "1"), ("APP_A", "2")])
         == Success(map["" := Table(map["A" := Text("2")])])
  {
    var cfg := EnvSettings("APP", "_", ",");
    var env := [("APP_A_B", "1"), ("APP_A", "2")];
    var names := ["APP_A_B", "APP_A"];
    var first := map["" := Table(map["A" := Table(map["B" := Text("1")])])];
    var second := map["" := Table(map["A" := Text("2")])];
    ExampleCollisionNames();
    ExampleBranchFirst();
    ExampleLeafSecond();
    assert names[1..] == ["APP_A"] && names[1..][1..] == [];
    assert DecomposeFrom(cfg, env, names[1..][1..], second) == Success(second);
    assert DecomposeFrom(cfg, env, names[1..], first) == Success(second);
    assert DecomposeFrom(cfg, env, names, map[]) == Success(second);
  }

  /** A later, longer name whose walk meets a string fails: `APP_A=2` then
      `APP_A_B=1` raise on `APP_A_B`. */
  lemma LongerNameCollides()
    ensures Decompose(EnvSettings("APP", "_", ","), [("APP_A", "2"), ("APP_A_B", "1")])
         == Failure(NotADict("APP_A_B"))
  {
    var env := [("APP_A", "2"), ("APP_A_B", "1")];
    ExampleCollisionNames();
    ExampleLeafFirst();
    ExampleBranchSecond();
    var names := ["APP_A", "APP_A_B"];
    assert names[1..] == ["APP_A_B"];
  }

  /** The path of a selected name. */
  function PathOf(cfg: EnvSettings, name: string): (p: seq<string>)
    requires cfg.separator != []
    ensures |p| >= 1
  {
    Split(LStrip(name, cfg.prefix), cfg.separator)
  }

  /** Names whose paths all leave `p` do not change the value at `p`. */
  lemma {:induction false} DivergingNamesKeep(cfg: EnvSettings, env: Environment, names: seq<string>, acc: Mapping, p: seq<string>, x: Value)
    requires cfg.separator != [] && |p| >= 1 && Get(acc, p) == Some(x)
    requires forall n :: n in names ==> Diverge(PathOf(cfg, n), p)
    requires DecomposeFrom(cfg, env, names, acc).Success?
    ensures Get(DecomposeFrom(cfg, env, names, acc).value, p) == Some(x)
    decreases |names|
  {
    if names != [] {
      var n := names[0];
      var v := SanitizeValue(ValueOf(env, n), cfg.listSeparator).value;
      var next := Step(cfg, acc, n, ValueOf(env, n)).value;
      InsertKeepsOtherPaths(acc, PathOf(cfg, n), v, n, p);
      DivergingNamesKeep(cfg, env, names[1..], next, p, x);
    }
  }

  /** The value a selected name writes survives every later name whose
      path leaves its own. */
  lemma {:induction false} LaterNamesWin(cfg: EnvSettings, env: Environment, names: seq<string>, acc: Mapping, i: nat)
    requires cfg.separator != [] && i < |names|
    requires forall j :: i < j < |names| ==> Diverge(PathOf(cfg, names[j]), PathOf(cfg, names[i]))
    requires DecomposeFrom(cfg, env, names, acc).Success?
    ensures SanitizeValue(ValueOf(env, names[i]), cfg.listSeparator).Success?
    ensures Get(DecomposeFrom(cfg, env, names, acc).value, PathOf(cfg, names[i]))
            == Some(SanitizeValue(ValueOf(env, names[i]), cfg.listSeparator).value)
    decreases i
  {
    var n := names[0];
    var step := Step(cfg, acc, n, ValueOf(env, n));
    assert step.Success?;
    var next := step.value;
    assert DecomposeFrom(cfg, env, names, acc) == DecomposeFrom(cfg, env, names[1..], next);
    var v := SanitizeValue(ValueOf(env, n), cfg.listSeparator).value;
    if i == 0 {
      InsertThenGet(acc, PathOf(cfg, n), v, n);
      forall m | m in names[1..] ensures Diverge(PathOf(cfg, m), PathOf(cfg, n)) {
        var j :| 0 <= j < |names[1..]| && names[1..][j] == m;
        assert names[j + 1] == m;
      }
      DivergingNamesKeep(cfg, env, names[1..], next, PathOf(cfg, n), v);
    } else {
      assert names[1..][i - 1] == names[i];
      forall j | i - 1 < j < |names[1..]|
        ensures Diverge(PathOf(cfg, names[1..][j]), PathOf(cfg, names[1..][i - 1]))
      {
        assert names[1..][j] == names[j + 1];
      }
      LaterNamesWin(cfg, env, names[1..], next, i - 1);
    }
  }

  /** The last write to a path wins: after a successful read the path of a
      selected variable holds its converted value unless a later selected
      variable's path meets it. */
  lemma LastWriterWins(cfg: EnvSettings, env: Environment, i: nat)
    requires cfg.separator != [] && i < |MappedVariables(env, cfg.prefix)|
    requires forall j :: i < j < |MappedVariables(env, cfg.prefix)| ==>
      Diverge(PathOf(cfg, MappedVariables(env, cfg.prefix)[j]), PathOf(cfg, MappedVariables(env, cfg.prefix)[i]))
    requires Decompose(cfg, env).Success?
    ensures var name := MappedVariables(env, cfg.prefix)[i];
      Get(Decompose(cfg, env).value, PathOf(cfg, name))
      == Some(SanitizeValue(ValueOf(env, name), cfg.listSeparator).value)
  {
    LaterNamesWin(cfg, env, MappedVariables(env, cfg.prefix), map[], i);
  }

  /** An empty segment separator or list separator makes `read()` fail as
      soon as one variable is selected; with none selected the result is
      empty. */
  lemma EmptySeparatorFails(cfg: EnvSettings, env: Environment)
    ensures MappedVariables(env, cfg.prefix) == [] ==> Decompose(cfg, env) == Success(map[])
    ensures MappedVariables(env, cfg.prefix) != [] && (cfg.separator == [] || cfg.listSeparator == []) ==>
      Decompose(cfg, env) == Failure(EmptySeparator)
  {
  }

  /** `value_map[name]` after one more variable. */
  lemma {:induction false} ValueOfSnoc(env: Environment, e: (string, string), name: string)
    ensures ValueOf(env + [e], name) ==
      if exists i :: 0 <= i < |env| && env[i].0 == name then ValueOf(env, name)
      else if e.0 == name then e.1 else ""
    decreases |env|
  {
    if env == [] {
      assert [] + [e] == [e];
    } else {
      assert (env + [e])[0] == env[0] && (env + [e])[1..] == env[1..] + [e];
      ValueOfSnoc(env[1..], e, name);
      if env[0].0 != name {
        assert (exists i :: 0 <= i < |env| && env[i].0 == name) ==
               (exists i :: 0 <= i < |env[1..]| && env[1..][i].0 == name) by {
          if exists i :: 0 <= i < |env| && env[i].0 == name {
            var i :| 0 <= i < |env| && env[i].0 == name;
            assert env[1..][i - 1].0 == name;
          }
        }
      }
    }
  }

  /** A selected name occurs in the environment exactly when it occurs among
      the selected variables. */
  lemma SelectedHasName(env: Environment, prefix: string, n: string)
    requires prefix <= n
    ensures (exists i :: 0 <= i < |env| && env[i].0 == n) <==>
            (exists i :: 0 <= i < |Selected(env, prefix)| && Selected(env, prefix)[i].0 == n)
  {
    var sel := Selected(env, prefix);
    SelectedMembers(env, prefix);
    forall i | 0 <= i < |env| && env[i].0 == n
      ensures exists k :: 0 <= k < |sel| && sel[k].0 == n
    {
      assert env[i] in sel;
      var k :| 0 <= k < |sel| && sel[k] == env[i];
      assert sel[k].0 == n;
    }
    forall i | 0 <= i < |sel| && sel[i].0 == n
      ensures exists k :: 0 <= k < |env| && env[k].0 == n
    {
      assert sel[i] in env;
      var k :| 0 <= k < |env| && env[k] == sel[i];
      assert env[k].0 == n;
    }
    assert sel == Selected(env, prefix);
    assert (exists i :: 0 <= i < |env| && env[i].0 == n) <==> (exists i :: 0 <= i < |sel| && sel[i].0 == n);
  }

  /** Dropping the unselected variables changes neither the selected names
      nor their values. */
  lemma {:induction false} SelectedKeepsMapped(env: Environment, prefix: string)
    ensures MappedVariables(Selected(env, prefix), prefix) == MappedVariables(env, prefix)
    ensures forall n :: prefix <= n ==> ValueOf(Selected(env, prefix), n) == ValueOf(env, n)
    decreases |env|
  {
    if env != [] {
      var front := env[..|env| - 1];
      var last := env[|env| - 1];
      assert env == front + [last];
      SelectedKeepsMapped(front, prefix);
      var sel := Selected(front, prefix);
      forall n | prefix <= n ensures ValueOf(Selected(env, prefix), n) == ValueOf(env, n) {
        ValueOfSnoc(front, last, n);
        SelectedHasName(front, prefix, n);
        if prefix <= last.0 {
          ValueOfSnoc(sel, last, n);
        } else if !exists i :: 0 <= i < |front| && front[i].0 == n {
          ValueOfAbsent(front, n);
          ValueOfAbsent(sel, n);
        }
      }
    }
    SelectedAll(Selected(env, prefix), prefix);
  }

  /** The fold reads the environment only through the values of the names
      it processes. */
  lemma {:induction false} DecomposeFromSameValues(cfg: EnvSettings, env1: Environment, env2: Environment, names: seq<string>, acc: Mapping)
    requires forall n :: n in names ==> ValueOf(env1, n) == ValueOf(env2, n)
    ensures DecomposeFrom(cfg, env1, names, acc) == DecomposeFrom(cfg, env2, names, acc)
    decreases |names|
  {
    if names != [] {
      var next := Step(cfg, acc, names[0], ValueOf(env1, names[0]));
      if next.Success? {
        DecomposeFromSameValues(cfg, env1, env2, names[1..], next.value);
      }
    }
  }

  /** Variables the prefix does not select contribute nothing. */
  lemma UnselectedContributeNothing(cfg: EnvSettings, env: Environment)
    ensures Decompose(cfg, Selected(env, cfg.prefix)) == Decompose(cfg, env)
  {
    SelectedKeepsMapped(env, cfg.prefix);
    var names := MappedVariables(env, cfg.prefix);
    forall n | n in names ensures ValueOf(Selected(env, cfg.prefix), n) == ValueOf(env, n) {
      var i :| 0 <= i < |env| && env[i].0 == n && cfg.prefix <= n;
    }
    DecomposeFromSameValues(cfg, Selected(env, cfg.prefix), env, names, map[]);
  }

  // ---------------------------------------------------------------------
  // The in-place walk of lines 60-67, one step at a time
  // ---------------------------------------------------------------------

  /** The node the walk's `items` cursor designates after following `p`
      from the root dict. */
  function NodeAt(m: Mapping, p: seq<string>): (found: Option<Value>)
  {
    if p == [] then Some(Table(m)) else Get(m, p)
  }

  /** Following one more segment from a node. */
  lemma {:induction false} NodeAtSnoc(m: Mapping, p: seq<string>, x: string)
    ensures NodeAt(m, p + [x]) ==
      if NodeAt(m, p).Some? && NodeAt(m, p).value.Table? && x in NodeAt(m, p).value.entries
      then Some(NodeAt(m, p).value.entries[x]) else None
    decreases |p|
  {
    if p != [] {
      assert (p + [x])[0] == p[0] && (p + [x])[1..] == p[1..] + [x];
      if p[0] in m && m[p[0]].Table? {
        NodeAtSnoc(m[p[0]].entries, p[1..], x);
      }
    }
  }

  /** `items[key] = v` where `items` is the dict at `p[..|p| - 1]`. */
  function Put(m: Mapping, p: seq<string>, v: Value): (updated: Mapping)
    requires |p| >= 1
    decreases |p|
  {
    if |p| == 1 then m[p[0] := v]
    else if p[0] in m && m[p[0]].Table? then m[p[0] := Table(Put(m[p[0]].entries, p[1..], v))]
    else m
  }

  /** After `items[key] = v` the path holds `v`. */
  lemma {:induction false} PutThenNodeAt(m: Mapping, p: seq<string>, v: Value)
    requires |p| >= 1
    requires NodeAt(m, p[..|p| - 1]).Some? && NodeAt(m, p[..|p| - 1]).value.Table?
    ensures NodeAt(Put(m, p, v), p) == Some(v)
    decreases |p|
  {
    if |p| > 1 {
      assert p[..|p| - 1][0] == p[0];
      assert p[..|p| - 1][1..] == p[1..][..|p| - 2];
      PutThenNodeAt(m[p[0]].entries, p[1..], v);
    }
  }

  /** Creating an empty dict for an absent intermediate segment does not
      change what the rest of the walk produces. */
  lemma {:induction false} InsertAfterCreate(m: Mapping, path: seq<string>, k: nat, v: Value, name: string)
    requires k < |path| - 1
    requires NodeAt(m, path[..k]).Some? && NodeAt(m, path[..k]).value.Table?
    requires path[k] !in NodeAt(m, path[..k]).value.entries
    ensures Insert(Put(m, path[..k + 1], Table(map[])), path, v, name) == Insert(m, path, v, name)
    decreases k
  {
    var m' := Put(m, path[..k + 1], Table(map[]));
    if k == 0 {
      assert path[..1] == [path[0]];
      assert m' == m[path[0] := Table(map[])];
      assert Child(m', path[0], name) == Child(m, path[0], name) == Success(map[]);
      var inner := Insert(map[], path[1..], v, name);
      if inner.Success? {
        assert m'[path[0] := Table(inner.value)] == m[path[0] := Table(inner.value)];
      }
    } else {
      assert path[..k][0] == path[0] && path[..k + 1][0] == path[0];
      assert path[..k][1..] == path[1..][..k - 1];
      assert path[..k + 1][1..] == path[1..][..k];
      assert path[0] in m && m[path[0]].Table?;
      var e := m[path[0]].entries;
      assert NodeAt(e, path[1..][..k - 1]) == NodeAt(m, path[..k]);
      InsertAfterCreate(e, path[1..], k - 1, v, name);
      assert m' == m[path[0] := Table(Put(e, path[1..][..k], Table(map[])))];
      assert Child(m', path[0], name) == Success(Put(e, path[1..][..k], Table(map[])));
      assert Child(m, path[0], name) == Success(e);
      var inner := Insert(e, path[1..], v, name);
      if inner.Success? {
        assert m'[path[0] := Table(inner.value)] == m[path[0] := Table(inner.value)];
      }
    }
  }

  /** One step of the walk over an absent intermediate segment: the new
      empty dict is where `items` points next, and the outcome of the whole
      walk is unchanged. */
  lemma CreateStep(m: Mapping, path: seq<string>, k: nat, name: string)
    requires k < |path| - 1
    requires NodeAt(m, path[..k]).Some? && NodeAt(m, path[..k]).value.Table?
    requires path[k] !in NodeAt(m, path[..k]).value.entries
    ensures NodeAt(Put(m, path[..k + 1], Table(map[])), path[..k + 1]) == Some(Table(map[]))
    ensures forall v :: Insert(Put(m, path[..k + 1], Table(map[])), path, v, name) == Insert(m, path, v, name)
  {
    forall v ensures Insert(Put(m, path[..k + 1], Table(map[])), path, v, name) == Insert(m, path, v, name) {
      InsertAfterCreate(m, path, k, v, name);
    }
    assert path[..k + 1][..k] == path[..k];
    PutThenNodeAt(m, path[..k + 1], Table(map[]));
  }

  /** One step of the walk over a present intermediate segment. */
  lemma ReuseStep(m: Mapping, path: seq<string>, k: nat)
    requires k < |path| - 1
    requires NodeAt(m, path[..k]).Some? && NodeAt(m, path[..k]).value.Table?
    requires path[k] in NodeAt(m, path[..k]).value.entries
    ensures NodeAt(m, path[..k + 1]) == Some(NodeAt(m, path[..k]).value.entries[path[k]])
  {
    NodeAtSnoc(m, path[..k], path[k]);
    assert path[..k] + [path[k]] == path[..k + 1];
  }

  /** When the last intermediate node is a dict, the walk succeeds and
      writes the value there. */
  lemma {:induction false} InsertAtTable(m: Mapping, path: seq<string>, v: Value, name: string)
    requires |path| >= 1
    requires NodeAt(m, path[..|path| - 1]).Some? && NodeAt(m, path[..|path| - 1]).value.Table?
    ensures Insert(m, path, v, name) == Success(Put(m, path, v))
    decreases |path|
  {
    if |path| > 1 {
      assert path[..|path| - 1][0] == path[0];
      assert path[..|path| - 1][1..] == path[1..][..|path| - 2];
      InsertAtTable(m[path[0]].entries, path[1..], v, name);
    }
  }

  /** Lines 60-64: advance `items` from the root dict along every segment
      but the last, creating a dict for each absent segment and reusing an
      existing one. Returns the updated root and where `items` points. */
  method WalkIntermediates(result0: Mapping, path: seq<string>, key: string)
    returns (r: Result<(Mapping, Value), ConfigError>)
    requires |path| >= 1
    ensures r.Success? ==> NodeAt(r.value.0, path[..|path| - 1]) == Some(r.value.1)
    ensures r.Success? ==> forall v :: Insert(r.value.0, path, v, key) == Insert(result0, path, v, key)
    ensures r.Failure? ==> r.error == NotADict(key)
    ensures r.Failure? ==> forall v :: Insert(result0, path, v, key) == Failure(NotADict(key))
    ensures result0 == map[] ==> r.Success? && r.value.1 == Table(map[])
  {
    var result := result0;
    var items := Table(result);
    var k := 0;
    while k < |path| - 1
      invariant 0 <= k <= |path| - 1
      invariant NodeAt(result, path[..k]) == Some(items)
      invariant forall v :: Insert(result, path, v, key) == Insert(result0, path, v, key)
      invariant result0 == map[] ==> items == Table(map[])
    {
      if !items.Table? {
        // `items.keys()` on a string or a list
        forall v ensures Insert(result0, path, v, key) == Failure(NotADict(key)) {
          InsertFailsIff(result, path, v, key);
        }
        return Failure(NotADict(key));
      }
      if path[k] !in items.entries {
        CreateStep(result, path, k, key);
        result := Put(result, path[..k + 1], Table(map[]));
        items := Table(items.entries[path[k] := Table(map[])]);
      } else {
        ReuseStep(result, path, k);
      }
      items := items.entries[path[k]];
      k := k + 1;
    }
    r := Success((result, items));
  }

  /** Lines 59-67 for one selected variable, in the order the code runs
      them: split the name, walk the intermediate segments, convert the
      value, assign the last segment. */
  method ProcessVariable(cfg: EnvSettings, result0: Mapping, key: string, value: string)
    returns (r: Result<Mapping, ConfigError>)
    requires cfg.listSeparator == [] ==> result0 == map[]
    ensures r == Step(cfg, result0, key, value)
  {
    var sanitized := SanitizeKey(key, cfg.prefix, cfg.separator);
    if sanitized.Failure? {
      return Failure(sanitized.error);
    }
    var path := sanitized.value;
    var walked := WalkIntermediates(result0, path, key);
    if walked.Failure? {
      return Failure(walked.error);
    }
    var (result, items) := walked.value;
    var converted := SanitizeValue(value, cfg.listSeparator);
    if converted.Failure? {
      return Failure(converted.error);
    }
    if !items.Table? {
      // `items[last_key] = ...` on a string or a list
      InsertFailsIff(result, path, converted.value, key);
      assert |path| > 1;
      assert LeafAt(result, path[..|path| - 1]);
      return Failure(NotADict(key));
    }
    InsertAtTable(result, path, converted.value, key);
    r := Success(Put(result, path, converted.value));
  }

  /** `read()`: a fresh result dict built from the given snapshot. */
  method Read(cfg: EnvSettings, env: Environment) returns (r: Result<Mapping, ConfigError>)
    ensures r == Decompose(cfg, env)
  {
    var mapped: seq<string> := [];
    var i := 0;
    while i < |env|
      invariant 0 <= i <= |env|
      invariant mapped == MappedVariables(env[..i], cfg.prefix)
    {
      ghost var sel := Selected(env[..i], cfg.prefix);
      if cfg.prefix <= env[i].0 {
        mapped := mapped + [env[i].0];
        assert (sel + [env[i]])[..|sel|] == sel;
      }
      i := i + 1;
      assert env[..i][..i - 1] == env[..i - 1];
    }
    assert env[..|env|] == env;
    var result: Mapping := map[];
    var j := 0;
    while j < |mapped|
      invariant 0 <= j <= |mapped|
      invariant DecomposeFrom(cfg, env, mapped[j..], result) == Decompose(cfg, env)
      invariant cfg.listSeparator == [] ==> result == map[]
    {
      var key := mapped[j];
      var value := ValueOf(env, key);
      assert mapped[j..][1..] == mapped[j + 1..];
      var next := ProcessVariable(cfg, result, key, value);
      if next.Failure? {
        return Failure(next.error);
      }
      result := next.value;
      j := j + 1;
    }
    r := Success(result);
  }
}
