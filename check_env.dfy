/**
 * scripts/check-env.ts: the loading of `KEY=value` lines from the first
 * readable env file into the process environment (never overwriting a value
 * that is set), and the check that sorts the required variables into present
 * and missing and picks the exit code.
 *
 * The file system is the parameter `read` (`None` when a file cannot be
 * read); console output is not modelled.
 */
module CheckEnv {
  import opened Options
  import opened Text

  /** `process.env`: a variable is unset when it has no entry. */
  type Env = map<string, string>

  /** A variable counts as set when it has a non-empty value (`process.env[k]` is truthy). */
  predicate IsSet(env: Env, name: string) {
    name in env && env[name] != []
  }

  predicate IsQuote(c: char) { c == '"' || c == '\'' }

  /** `.replace(/^["']|["']$/g, '')`: one leading and one trailing quote are
      removed, each on its own, so they need not match. */
  function StripQuotes(v: string): (r: string)
    ensures |r| <= |v|
  {
    var a := if v != [] && IsQuote(v[0]) then v[1..] else v;
    if a != [] && IsQuote(a[|a| - 1]) then a[..|a| - 1] else a
  }

  /** A value written between quotes, of either kind, is read back without them. */
  lemma StripQuotesOfQuoted(w: string, open: char, close: char)
    requires IsQuote(open) && IsQuote(close)
    ensures StripQuotes([open] + w + [close]) == w
  {
    assert ([open] + w + [close])[1..] == w + [close];
  }

  /** A value with no quote at either end is kept as it is. */
  lemma StripQuotesOfPlain(w: string)
    requires w == [] || (!IsQuote(w[0]) && !IsQuote(w[|w| - 1]))
    ensures StripQuotes(w) == w
  {
  }

  /** The line is used: once trimmed it is not empty, not a comment and has an `=`. */
  predicate IsAssignment(trimmed: string) {
    trimmed != [] && !StartsWith(trimmed, "#") && '=' in trimmed
  }

  /** One line of an env file: `None` when it is skipped, otherwise the key
      (`split('=')`'s first piece) and the value (the other pieces joined with
      `=` again, quotes stripped). */
  function ParseLine(line: string): (r: Option<(string, string)>)
    ensures r.Some? <==> IsAssignment(Trim(line))
    ensures r.Some? ==>
      var t := Trim(line);
      var key := r.value.0;
      && |key| < |t| && t[..|key|] == key && t[|key|] == '=' && '=' !in key
      && r.value.1 == StripQuotes(t[|key| + 1..])
  {
    var trimmed := Trim(line);
    if !IsAssignment(trimmed) then None
    else
      var pieces := Split(trimmed, '=');
      KeyAndValue(trimmed);
      Some((pieces[0], StripQuotes(Join(pieces[1..], "="))))
  }

  /** The first piece of a split at `=` is the text before the first `=`, and
      the other pieces joined again are all the text after it. */
  lemma KeyAndValue(s: string)
    requires '=' in s
    ensures var pieces := Split(s, '=');
      var k := IndexOf(s, '=');
      |pieces| >= 2 && pieces[0] == s[..k] && Join(pieces[1..], "=") == s[k + 1..]
  {
    var k := IndexOf(s, '=');
    SplitJoin(s[k + 1..], '=');
    assert Split(s, '=')[1..] == Split(s[k + 1..], '=');
  }

  /** One line applied to the environment: a non-empty key is set only when
      the variable is unset or empty. */
  function ApplyLine(env: Env, line: string): (e: Env)
    ensures e.Keys >= env.Keys
    ensures forall k :: IsSet(env, k) ==> e[k] == env[k]
  {
    match ParseLine(line)
    case None => env
    case Some((key, value)) =>
      if key != [] && !IsSet(env, key) then env[key := value] else env
  }

  /** A line never removes a variable nor changes one that is set; a parsed
      non-empty key is present afterwards; and the only entry that can change
      is the line's key, which then holds the line's value. */
  lemma ApplyLineEffect(env: Env, line: string)
    ensures var e := ApplyLine(env, line);
      && e.Keys >= env.Keys
      && (forall k :: IsSet(env, k) ==> e[k] == env[k])
      && (ParseLine(line).Some? && ParseLine(line).value.0 != [] ==> ParseLine(line).value.0 in e)
      && (forall k :: k in e && (k !in env || e[k] != env[k]) ==>
            ParseLine(line).Some? && k == ParseLine(line).value.0 && e[k] == ParseLine(line).value.1)
  {
  }

  /** The lines applied in order. */
  function ApplyLines(env: Env, lines: seq<string>): (e: Env)
    ensures e.Keys >= env.Keys
    decreases |lines|
  {
    if lines == [] then env else ApplyLine(ApplyLines(env, lines[..|lines| - 1]), lines[|lines| - 1])
  }

  /** A value that is set survives any number of lines. */
  lemma {:induction false} SetValuesKept(env: Env, lines: seq<string>, k: string)
    requires IsSet(env, k)
    ensures k in ApplyLines(env, lines) && ApplyLines(env, lines)[k] == env[k]
    decreases |lines|
  {
    if lines != [] {
      SetValuesKept(env, lines[..|lines| - 1], k);
      ApplyLineEffect(ApplyLines(env, lines[..|lines| - 1]), lines[|lines| - 1]);
    }
  }

  /** The environment already holds what the line would give it: the key is
      present, and empty only when the line's value is empty too. */
  predicate Absorbed(env: Env, line: string) {
    match ParseLine(line)
    case None => true
    case Some((key, value)) => key == [] || (key in env && (env[key] == [] ==> value == []))
  }

  predicate AbsorbsAll(env: Env, lines: seq<string>) {
    forall i :: 0 <= i < |lines| ==> Absorbed(env, lines[i])
  }

  lemma AbsorbedKept(env: Env, line: string, next: string)
    requires Absorbed(env, line)
    ensures Absorbed(ApplyLine(env, next), line)
  {
  }

  lemma AbsorbsOwnLine(env: Env, line: string)
    ensures Absorbed(ApplyLine(env, line), line)
  {
  }

  lemma AbsorbedIsNoop(env: Env, line: string)
    requires Absorbed(env, line)
    ensures ApplyLine(env, line) == env
  {
    match ParseLine(line)
    case None =>
    case Some((key, value)) =>
      if key != [] && !IsSet(env, key) {
        assert env[key := value] == env;
      }
  }

  /** After the lines are applied, the environment absorbs every one of them. */
  lemma {:induction false} ApplyLinesAbsorbs(env: Env, lines: seq<string>)
    ensures AbsorbsAll(ApplyLines(env, lines), lines)
    decreases |lines|
  {
    if lines != [] {
      var init := lines[..|lines| - 1];
      var last := lines[|lines| - 1];
      var before := ApplyLines(env, init);
      ApplyLinesAbsorbs(env, init);
      forall i | 0 <= i < |lines| ensures Absorbed(ApplyLine(before, last), lines[i]) {
        if i < |lines| - 1 {
          assert lines[i] == init[i];
          AbsorbedKept(before, init[i], last);
        } else {
          AbsorbsOwnLine(before, last);
        }
      }
    }
  }

  /** Lines the environment absorbs change nothing. */
  lemma {:induction false} AbsorbedLinesAreNoop(env: Env, lines: seq<string>)
    requires AbsorbsAll(env, lines)
    ensures ApplyLines(env, lines) == env
    decreases |lines|
  {
    if lines != [] {
      var init := lines[..|lines| - 1];
      assert AbsorbsAll(env, init) by {
        forall i | 0 <= i < |init| ensures Absorbed(env, init[i]) {
          assert init[i] == lines[i];
        }
      }
      AbsorbedLinesAreNoop(env, init);
      AbsorbedIsNoop(env, lines[|lines| - 1]);
    }
  }

  /** Applying the same lines a second time changes nothing. */
  lemma ApplyLinesIdempotent(env: Env, lines: seq<string>)
    ensures ApplyLines(ApplyLines(env, lines), lines) == ApplyLines(env, lines)
  {
    ApplyLinesAbsorbs(env, lines);
    AbsorbedLinesAreNoop(ApplyLines(env, lines), lines);
  }

  /** The files `loadEnvFile` tries, in order. */
  const EnvFiles := [".env.local", ".env"]

  datatype Load = Load(env: Env, loaded: Option<string>)

  /** `loadEnvFile()` over the files `files`: the lines of the first readable
      one are applied, and its name returned; the others are not read. */
  function LoadFrom(env: Env, read: string -> Option<string>, files: seq<string>): (l: Load)
    ensures l.loaded.Some? ==> l.loaded.value in files && read(l.loaded.value).Some?
    ensures l.loaded.None? <==> forall i :: 0 <= i < |files| ==> read(files[i]).None?
    ensures l.loaded.None? ==> l.env == env
    decreases |files|
  {
    if files == [] then Load(env, None)
    else
      match read(files[0])
      case Some(content) => Load(ApplyLines(env, Split(content, '\n')), Some(files[0]))
      case None => LoadFrom(env, read, files[1..])
  }

  /** The first readable file wins: an earlier file that can be read hides every later one. */
  lemma FirstReadableWins(env: Env, read: string -> Option<string>, files: seq<string>, j: int)
    requires 0 <= j < |files| && read(files[j]).Some?
    requires forall i :: 0 <= i < j ==> read(files[i]).None?
    ensures LoadFrom(env, read, files) == Load(ApplyLines(env, Split(read(files[j]).value, '\n')), Some(files[j]))
    decreases j
  {
    if j > 0 {
      FirstReadableWins(env, read, files[1..], j - 1);
    }
  }

  /** Loading the files again, as the check does after the script already
      loaded them, leaves the environment as it was. */
  lemma {:induction false} LoadTwiceIsLoadOnce(env: Env, read: string -> Option<string>, files: seq<string>)
    ensures LoadFrom(LoadFrom(env, read, files).env, read, files) == LoadFrom(env, read, files)
    decreases |files|
  {
    if files != [] {
      match read(files[0])
      case Some(content) =>
        ApplyLinesIdempotent(env, Split(content, '\n'));
      case None =>
        LoadTwiceIsLoadOnce(env, read, files[1..]);
    }
  }

  // ---------------------------------------------------------------------
  // The check

  datatype Category = Category(name: string, vars: seq<string>)

  const RequiredEnvVars := [
    Category("database", ["DATABASE_URL"]),
    Category("nextauth", ["NEXTAUTH_URL", "NEXTAUTH_SECRET"]),
    Category("tmdb", ["TMDB_API_KEY"])
  ]

  /** The variables that are set, in their order. */
  function PresentOf(env: Env, vars: seq<string>): seq<string> {
    if vars == [] then []
    else (if IsSet(env, vars[0]) then [vars[0]] else []) + PresentOf(env, vars[1..])
  }

  /** The variables that are not set, in their order. */
  function MissingOf(env: Env, vars: seq<string>): seq<string> {
    if vars == [] then []
    else (if IsSet(env, vars[0]) then [] else [vars[0]]) + MissingOf(env, vars[1..])
  }

  /** A variable is listed as present exactly when it is required and set,
      and as missing exactly when it is required and not set. */
  lemma {:induction false} Membership(env: Env, vars: seq<string>)
    ensures forall v :: v in PresentOf(env, vars) <==> v in vars && IsSet(env, v)
    ensures forall v :: v in MissingOf(env, vars) <==> v in vars && !IsSet(env, v)
  {
    if vars != [] {
      Membership(env, vars[1..]);
      assert vars == [vars[0]] + vars[1..];
    }
  }

  /** Together the two lists hold the category's variables, no more and no fewer. */
  lemma {:induction false} PartitionExact(env: Env, vars: seq<string>)
    ensures multiset(PresentOf(env, vars)) + multiset(MissingOf(env, vars)) == multiset(vars)
  {
    if vars != [] {
      PartitionExact(env, vars[1..]);
      var x := vars[0];
      assert vars == [x] + vars[1..];
      assert multiset(vars) == multiset{x} + multiset(vars[1..]);
      if IsSet(env, x) {
        assert PresentOf(env, vars) == [x] + PresentOf(env, vars[1..]);
        assert MissingOf(env, vars) == MissingOf(env, vars[1..]);
      } else {
        assert PresentOf(env, vars) == PresentOf(env, vars[1..]);
        assert MissingOf(env, vars) == [x] + MissingOf(env, vars[1..]);
      }
    }
  }

  /** Each variable of a category lands in exactly one of the two lists. */
  lemma PresentOrMissing(env: Env, vars: seq<string>)
    ensures forall v :: v in vars ==> (v in PresentOf(env, vars) <==> v !in MissingOf(env, vars))
  {
    Membership(env, vars);
  }

  /** The inner loop of `checkEnvVars`: one category's variables, pushed onto
      `present` or `missing`. */
  method SortCategory(env: Env, vars: seq<string>) returns (present: seq<string>, missing: seq<string>)
    ensures present == PresentOf(env, vars) && missing == MissingOf(env, vars)
  {
    present, missing := [], [];
    for i := 0 to |vars|
      invariant present + PresentOf(env, vars[i..]) == PresentOf(env, vars)
      invariant missing + MissingOf(env, vars[i..]) == MissingOf(env, vars)
    {
      var x := vars[i];
      assert vars[i..][0] == x && vars[i..][1..] == vars[i + 1..];
      if IsSet(env, x) {
        assert PresentOf(env, vars[i..]) == [x] + PresentOf(env, vars[i + 1..]);
        assert MissingOf(env, vars[i..]) == MissingOf(env, vars[i + 1..]);
        assert present + [x] + PresentOf(env, vars[i + 1..]) == present + ([x] + PresentOf(env, vars[i + 1..]));
        present := present + [x];
      } else {
        assert PresentOf(env, vars[i..]) == PresentOf(env, vars[i + 1..]);
        assert MissingOf(env, vars[i..]) == [x] + MissingOf(env, vars[i + 1..]);
        assert missing + [x] + MissingOf(env, vars[i + 1..]) == missing + ([x] + MissingOf(env, vars[i + 1..]));
        missing := missing + [x];
      }
    }
  }

  /** The outer loop of `checkEnvVars`: every category sorted in turn. */
  method Partition(env: Env, categories: seq<Category>) returns (present: seq<seq<string>>, missing: seq<seq<string>>)
    ensures |present| == |categories| && |missing| == |categories|
    ensures forall c :: 0 <= c < |categories| ==>
      present[c] == PresentOf(env, categories[c].vars) && missing[c] == MissingOf(env, categories[c].vars)
  {
    present, missing := [], [];
    for c := 0 to |categories|
      invariant |present| == c && |missing| == c
      invariant forall d :: 0 <= d < c ==>
        present[d] == PresentOf(env, categories[d].vars) && missing[d] == MissingOf(env, categories[d].vars)
    {
      var p, m := SortCategory(env, categories[c].vars);
      present := present + [p];
      missing := missing + [m];
    }
  }

  /** The `allGood` loop: exit code 0 when no category misses a variable, 1 otherwise. */
  method ExitCode(missing: seq<seq<string>>) returns (code: int)
    ensures code == 0 || code == 1
    ensures code == 0 <==> forall c :: 0 <= c < |missing| ==> missing[c] == []
  {
    var allGood := true;
    for c := 0 to |missing|
      invariant allGood <==> forall d :: 0 <= d < c ==> missing[d] == []
    {
      if |missing[c]| != 0 {
        allGood := false;
      }
    }
    code := if allGood then 0 else 1;
  }

  /** The exit code is 0 exactly when every required variable is set. */
  lemma ExitCodeMeaning(env: Env, categories: seq<Category>, missing: seq<seq<string>>)
    requires |missing| == |categories|
    requires forall c :: 0 <= c < |categories| ==> missing[c] == MissingOf(env, categories[c].vars)
    ensures (forall c :: 0 <= c < |missing| ==> missing[c] == []) <==>
            (forall c, v :: 0 <= c < |categories| && v in categories[c].vars ==> IsSet(env, v))
  {
    forall c | 0 <= c < |categories| && (forall v :: v in categories[c].vars ==> IsSet(env, v))
      ensures missing[c] == []
    {
      NoneMissing(env, categories[c].vars);
    }
    forall c | 0 <= c < |categories| ensures forall v :: v in missing[c] <==> v in categories[c].vars && !IsSet(env, v) {
      Membership(env, categories[c].vars);
    }
  }

  lemma {:induction false} NoneMissing(env: Env, vars: seq<string>)
    requires forall v :: v in vars ==> IsSet(env, v)
    ensures MissingOf(env, vars) == []
  {
    if vars != [] {
      assert vars[0] in vars;
      NoneMissing(env, vars[1..]);
    }
  }

  const MaskLength := 20
  const ShownLength := 30

  /** Names that hold secrets. */
  predicate Masked(name: string) {
    Contains(name, "PASSWORD") || Contains(name, "SECRET")
  }

  /** The value shown for a variable: twenty bullets for a secret, whatever its
      value; otherwise at most the first thirty characters of the value, and
      nothing when the variable is unset. */
  function Display(name: string, value: Option<string>): (d: string)
    ensures Masked(name) ==> |d| == MaskLength && forall i :: 0 <= i < |d| ==> d[i] == '•'
    ensures !Masked(name) ==> |d| <= ShownLength && (value.None? ==> d == [])
    ensures !Masked(name) && value.Some? ==>
      && |d| <= |value.value| && d == value.value[..|d|]
      && (|value.value| <= ShownLength ==> d == value.value)
  {
    if Masked(name) then seq(MaskLength, _ => '•')
    else if value.None? then []
    else if |value.value| <= ShownLength then value.value
    else value.value[..ShownLength]
  }

  /** The process environment, which `loadEnvFile` fills in place. */
  class ProcessEnv {
    var env: Env

    constructor (env: Env)
      ensures this.env == env
    {
      this.env := env;
    }

    /** `loadEnvFile()`: tries each file in turn; the first that can be read
        has its lines applied, one by one, and its name is returned. */
    method LoadEnvFile(read: string -> Option<string>) returns (loaded: Option<string>)
      modifies this
      ensures Load(env, loaded) == LoadFrom(old(env), read, EnvFiles)
    {
      var f := 0;
      while f < |EnvFiles|
        invariant 0 <= f <= |EnvFiles| && env == old(env)
        invariant LoadFrom(old(env), read, EnvFiles) == LoadFrom(old(env), read, EnvFiles[f..])
      {
        var file := EnvFiles[f];
        var content := read(file);
        if content.Some? {
          ApplyContent(content.value);
          return Some(file);
        }
        assert EnvFiles[f..][1..] == EnvFiles[f + 1..];
        f := f + 1;
      }
      return None;
    }

    /** The lines of a file that could be read, applied one by one. */
    method ApplyContent(content: string)
      modifies this
      ensures env == ApplyLines(old(env), Split(content, '\n'))
    {
      var lines := Split(content, '\n');
      for i := 0 to |lines|
        invariant env == ApplyLines(old(env), lines[..i])
      {
        assert lines[..i + 1][..i] == lines[..i] && lines[..i + 1][i] == lines[i];
        ghost var before := env;
        var parsed := ParseLine(lines[i]);
        if parsed.Some? {
          var key, value := parsed.value.0, parsed.value.1;
          if key != [] && !IsSet(env, key) {
            env := env[key := value];
          }
        }
        assert env == ApplyLine(before, lines[i]);
      }
      assert lines[..|lines|] == lines;
    }

    /** `checkEnvVars()`: sorts the required variables as the environment
        stands, loads the env file again, and returns the exit code. */
    method CheckEnvVars(read: string -> Option<string>) returns (code: int)
      modifies this
      ensures env == LoadFrom(old(env), read, EnvFiles).env
      ensures code == 0 || code == 1
      ensures code == 0 <==> forall c, v :: 0 <= c < |RequiredEnvVars| && v in RequiredEnvVars[c].vars ==> IsSet(old(env), v)
    {
      var present, missing := Partition(env, RequiredEnvVars);
      ExitCodeMeaning(env, RequiredEnvVars, missing);
      var loaded := LoadEnvFile(read);
      code := ExitCode(missing);
    }

    /** The script: load the env file, then check; the second load inside the
        check changes nothing, so the exit code is 0 exactly when every
        required variable is set once the file is loaded. */
    method Run(read: string -> Option<string>) returns (code: int)
      modifies this
      ensures env == LoadFrom(old(env), read, EnvFiles).env
      ensures code == 0 <==> forall c, v :: 0 <= c < |RequiredEnvVars| && v in RequiredEnvVars[c].vars ==> IsSet(env, v)
    {
      var loaded := LoadEnvFile(read);
      code := CheckEnvVars(read);
      LoadTwiceIsLoadOnce(old(env), read, EnvFiles);
    }
  }
}
