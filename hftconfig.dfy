/**
 * lib/hft-config.js: where happyfuntimes is installed. The module keeps
 * three globals: the path of the config file, whether that file has been
 * read, and the cached install directory. `setup` may override the first
 * and the last until the file has been read; the getter reads the file the
 * first time it has no (truthy) directory and caches what it finds.
 *
 * The config file is an input of each read: what `readFileSync` and
 * `JSON.parse` make of the file at the configured path at that moment.
 */
module HftConfig {
  import opened Wrappers
  import opened Paths
  import opened FileSystem

  /** What the config file holds when the getter reads it. */
  datatype ConfigFile =
    | Missing                                 // `readFileSync` throws: absent or unreadable
    | Malformed                               // `JSON.parse` throws
    | Parsed(installDir: Option<string>)       // an object; its `installDir` property, if any

  /** What the module's functions throw. */
  datatype Thrown =
    | SetupAfterRead      // the string thrown by `setup` once the file has been read
    | ConfigPathUndeclared // the ReferenceError of the error report on malformed JSON
    | NotInstalled        // the string thrown by `hftRequire`

  /** The options object `setup` receives: its two optional string properties. */
  datatype Options = Options(configPath: Option<string>, hftDir: Option<string>)

  /** The module's globals `g_configPath`, `g_configRead` and `g_hftInstallDir`. */
  datatype ConfigState = ConfigState(configPath: string, configRead: bool, installDir: Option<string>)

  /** The outcome of one call and the globals after it. */
  datatype Call<T> = Call(result: Result<T, Thrown>, state: ConfigState)

  /** JavaScript truthiness of a value that is a string or undefined. */
  predicate Truthy(v: Option<string>) {
    v.Some? && v.value != ""
  }

  /** `path.resolve(p)` with `cwd` as the working directory. */
  function ResolvePath(cwd: string, p: string): (r: string)
    ensures r != ""
  {
    if |p| > 0 && p[0] == '/' then Normalize(p) else Normalize(Join(cwd, p))
  }

  /** The globals when the module is loaded: `$HOME/.happyfuntimes/config.json`, not read, no directory. */
  function Initial(home: string): (s: ConfigState)
    ensures !s.configRead && !Truthy(s.installDir)
  {
    ConfigState(Join(Join(home, ".happyfuntimes"), "config.json"), false, None)
  }

  /** `setup(options)`. */
  function SetupStep(s: ConfigState, options: Options, cwd: string): (c: Call<()>)
    ensures c.result.Failure? <==> s.configRead
    ensures c.result.Failure? ==> c.result.error == SetupAfterRead && c.state == s
    ensures c.state.configRead == s.configRead
  {
    if s.configRead then Call(Failure(SetupAfterRead), s)
    else
      var path := if Truthy(options.configPath) then ResolvePath(cwd, options.configPath.value) else s.configPath;
      var dir := if Truthy(options.hftDir) then Some(ResolvePath(cwd, options.hftDir.value)) else s.installDir;
      Call(Success(()), ConfigState(path, false, dir))
  }

  /** The getter `getHftInstallDir()`, with `file` what the config file holds if it is read. */
  function GetStep(s: ConfigState, file: ConfigFile): (c: Call<Option<string>>)
    ensures c.state.configPath == s.configPath
    ensures Truthy(s.installDir) ==> c == Call(Success(s.installDir), s)
    ensures !Truthy(s.installDir) ==> c.state.configRead
    ensures c.result.Failure? <==> !Truthy(s.installDir) && file.Malformed?
    ensures !Truthy(s.installDir) && file.Parsed? ==>
      c == Call(Success(file.installDir), s.(configRead := true, installDir := file.installDir))
    ensures !Truthy(s.installDir) && file.Missing? ==> c == Call(Success(None), s.(configRead := true))
  {
    if Truthy(s.installDir) then Call(Success(s.installDir), s)
    else
      var read := s.(configRead := true);
      match file
      case Missing => Call(Success(None), read)
      case Malformed => Call(Failure(ConfigPathUndeclared), read)
      case Parsed(dir) => Call(Success(dir), read.(installDir := dir))
  }

  /** `check()`: whether the getter returns something other than undefined; it never throws. */
  function CheckStep(s: ConfigState, file: ConfigFile): (c: Call<bool>)
    ensures c.result.Success?
    ensures c.state == GetStep(s, file).state
  {
    var g := GetStep(s, file);
    Call(Success(g.result.Success? && g.result.value.Some?), g.state)
  }

  /**
   * `hftRequire(modulePath)` up to the `require` itself: on success, the
   * path it hands to `require`.
   */
  function RequireStep(s: ConfigState, file: ConfigFile, modulePath: string): (c: Call<string>)
    ensures c.state == GetStep(s, file).state
  {
    var g := GetStep(s, file);
    if g.result.Failure? then Call(Failure(g.result.error), g.state)
    else if !Truthy(g.result.value) then Call(Failure(NotInstalled), g.state)
    else Call(Success(Join(g.result.value.value, modulePath)), g.state)
  }

  /** Once the getter has read the file, `setup` throws and changes nothing. */
  lemma SetupAfterReadThrows(s: ConfigState, file: ConfigFile, options: Options, cwd: string)
    requires !Truthy(s.installDir)
    ensures var after := GetStep(s, file).state;
      SetupStep(after, options, cwd) == Call(Failure(SetupAfterRead), after)
  {
  }

  /**
   * A directory given to `setup` is what the getter returns, whatever the
   * config file holds, and the file is never read.
   */
  lemma SetupDirWins(s: ConfigState, options: Options, cwd: string, file: ConfigFile)
    requires !s.configRead && Truthy(options.hftDir)
    ensures var configured := SetupStep(s, options, cwd).state;
      var g := GetStep(configured, file);
      g.result == Success(Some(ResolvePath(cwd, options.hftDir.value))) && !g.state.configRead
  {
  }

  /**
   * A missing file sets the read flag and yields undefined, and the next
   * call reads again: it answers exactly as the first call would have with
   * the file then present.
   */
  lemma MissingRetries(s: ConfigState, file: ConfigFile)
    requires !Truthy(s.installDir)
    ensures GetStep(s, Missing) == Call(Success(None), s.(configRead := true))
    ensures GetStep(GetStep(s, Missing).state, file) == GetStep(s, file)
  {
  }

  /** Malformed JSON makes the getter throw, after setting the read flag. */
  lemma MalformedThrows(s: ConfigState)
    requires !Truthy(s.installDir)
    ensures GetStep(s, Malformed) == Call(Failure(ConfigPathUndeclared), s.(configRead := true))
  {
  }

  /**
   * A truthy directory the getter returns is cached: every later call
   * returns it again without reading, whatever the file then holds.
   */
  lemma {:induction false} Cached(s: ConfigState, first: ConfigFile, later: seq<ConfigFile>)
    requires GetStep(s, first).result.Success? && Truthy(GetStep(s, first).result.value)
    ensures Repeat(GetStep(s, first).state, later) == GetStep(s, first)
    decreases |later|
  {
    var c := GetStep(s, first);
    if later != [] {
      Repeat1(c, later);
      Cached(s, first, later[1..]);
    }
  }

  /** The last of the getter's calls on `later`, starting from `s` (the state itself when there are none). */
  function Repeat(s: ConfigState, later: seq<ConfigFile>): (c: Call<Option<string>>)
    decreases |later|
  {
    if later == [] then Call(Success(s.installDir), s)
    else if |later| == 1 then GetStep(s, later[0])
    else Repeat(GetStep(s, later[0]).state, later[1..])
  }

  /** One step of `Repeat` from a state whose cached directory is truthy. */
  lemma Repeat1(c: Call<Option<string>>, later: seq<ConfigFile>)
    requires c.result == Success(c.state.installDir) && Truthy(c.state.installDir) && later != []
    ensures Repeat(c.state, later) == Repeat(c.state, later[1..])
  {
  }

  /** `check` is true exactly when the getter returns a value, the empty string included, without throwing. */
  lemma CheckIff(s: ConfigState, file: ConfigFile)
    ensures CheckStep(s, file).result.value <==>
      GetStep(s, file).result.Success? && GetStep(s, file).result.value != None
    ensures CheckStep(s, file).result.value <==>
      Truthy(s.installDir) || (file.Parsed? && file.installDir.Some?)
  {
  }

  /**
   * `hftRequire` throws exactly when the getter throws or returns a falsy
   * value; otherwise it loads the module under the install directory.
   */
  lemma RequireIff(s: ConfigState, file: ConfigFile, modulePath: string)
    ensures var g := GetStep(s, file);
      RequireStep(s, file, modulePath).result.Failure? <==> g.result.Failure? || !Truthy(g.result.value)
    ensures var g := GetStep(s, file);
      g.result.Success? && !Truthy(g.result.value) ==> RequireStep(s, file, modulePath).result == Failure(NotInstalled)
    ensures var g := GetStep(s, file);
      g.result.Success? && Truthy(g.result.value) ==>
        RequireStep(s, file, modulePath).result == Success(Join(g.result.value.value, modulePath))
  {
  }

  /** The module's globals, updated in place by its functions. */
  class Config {
    var configPath: string
    var configRead: bool
    var installDir: Option<string>

    function State(): ConfigState
      reads this
    {
      ConfigState(configPath, configRead, installDir)
    }

    constructor (home: string)
      ensures State() == Initial(home)
    {
      configPath := Join(Join(home, ".happyfuntimes"), "config.json");
      configRead := false;
      installDir := None;
    }

    method Setup(options: Options, cwd: string) returns (r: Result<(), Thrown>)
      modifies this
      ensures Call(r, State()) == SetupStep(old(State()), options, cwd)
    {
      if configRead {
        return Failure(SetupAfterRead);
      }
      if Truthy(options.configPath) {
        configPath := ResolvePath(cwd, options.configPath.value);
      }
      if Truthy(options.hftDir) {
        installDir := Some(ResolvePath(cwd, options.hftDir.value));
      }
      r := Success(());
    }

    method GetHftInstallDir(file: ConfigFile) returns (r: Result<Option<string>, Thrown>)
      modifies this
      ensures Call(r, State()) == GetStep(old(State()), file)
    {
      if !Truthy(installDir) {
        configRead := true;
        match file
        case Missing =>
          return Success(None);
        case Malformed =>
          return Failure(ConfigPathUndeclared);
        case Parsed(dir) =>
          installDir := dir;
      }
      r := Success(installDir);
    }

    method Check(file: ConfigFile) returns (b: bool)
      modifies this
      ensures Call(Success(b), State()) == CheckStep(old(State()), file)
    {
      var g := GetHftInstallDir(file);
      b := g.Success? && g.value != None;
    }

    method HftRequire(file: ConfigFile, modulePath: string) returns (r: Result<string, Thrown>)
      modifies this
      ensures Call(r, State()) == RequireStep(old(State()), file, modulePath)
    {
      var g := GetHftInstallDir(file);
      if g.Failure? {
        return Failure(g.error);
      }
      if !Truthy(g.value) {
        return Failure(NotInstalled);
      }
      r := Success(Join(g.value.value, modulePath));
    }
  }
}
