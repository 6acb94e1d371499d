/**
 The configuration the script reads once at start-up (index.js:13-17). Each
 option is `process.env.X || argv.y || default`: JavaScript's `||` keeps its
 left operand only when it is truthy, and for a string-or-undefined that means
 a non-empty string. The environment is consulted before the command-line
 flag. The commit-message option reads the `BR_DIST_DIR` variable, as the
 source does.
 */
module Settings {
  import opened Wrappers

  /** JavaScript truthiness of a string-or-undefined. */
  predicate Truthy(v: Option<string>) {
    v.Some? && v.value != ""
  }

  /** `a || b` on strings-or-undefined. */
  function Or(a: Option<string>, b: Option<string>): Option<string> {
    if Truthy(a) then a else b
  }

  function Lookup(m: map<string, string>, key: string): Option<string> {
    if key in m then Some(m[key]) else None
  }

  /**
   `value` is what an option set through `env`, `flag` and `fallback` takes:
   the environment value when it is a non-empty string, otherwise the flag when
   it is one, otherwise the fallback.
   */
  ghost predicate Chosen(value: string, env: Option<string>, flag: Option<string>, fallback: string) {
    if Truthy(env) then value == env.value
    else if Truthy(flag) then value == flag.value
    else value == fallback
  }

  /** `env || flag || fallback`. */
  function Pick(env: Option<string>, flag: Option<string>, fallback: string): (r: string)
    ensures Chosen(r, env, flag, fallback)
    ensures fallback != [] ==> r != []
  {
    Or(Or(env, flag), Some(fallback)).value
  }

  datatype Config = Config(
    releasesBranch: string,
    token: Option<string>,       // GH_TOKEN: may stay undefined, or even be the empty string
    distDir: string,
    commitTemplate: string,
    buildScript: string)

  /** A token is in use exactly when `GH_TOKEN` is truthy. */
  predicate HasToken(token: Option<string>) {
    Truthy(token)
  }

  /** The configuration built from the environment variables and the parsed flags. */
  function Resolve(env: map<string, string>, argv: map<string, string>): (cfg: Config)
    ensures cfg.releasesBranch != [] && cfg.distDir != [] && cfg.commitTemplate != [] && cfg.buildScript != []
    ensures Chosen(cfg.releasesBranch, Lookup(env, "BR_RELEASES_BRANCH"), Lookup(argv, "b"), "releases")
    ensures Chosen(cfg.distDir, Lookup(env, "BR_DIST_DIR"), Lookup(argv, "d"), "dist")
    ensures Chosen(cfg.commitTemplate, Lookup(env, "BR_DIST_DIR"), Lookup(argv, "m"), "Release v%ver%")
    ensures Chosen(cfg.buildScript, Lookup(env, "BR_BUILD_SCRIPT"), Lookup(argv, "s"), "build-dist")
    ensures Truthy(Lookup(env, "GH_TOKEN")) ==> cfg.token == Lookup(env, "GH_TOKEN")
    ensures !Truthy(Lookup(env, "GH_TOKEN")) ==> cfg.token == Lookup(argv, "t")
    ensures HasToken(cfg.token) <==> Truthy(Lookup(env, "GH_TOKEN")) || Truthy(Lookup(argv, "t"))
  {
    Config(
      Pick(Lookup(env, "BR_RELEASES_BRANCH"), Lookup(argv, "b"), "releases"),
      Or(Lookup(env, "GH_TOKEN"), Lookup(argv, "t")),
      Pick(Lookup(env, "BR_DIST_DIR"), Lookup(argv, "d"), "dist"),
      Pick(Lookup(env, "BR_DIST_DIR"), Lookup(argv, "m"), "Release v%ver%"),
      Pick(Lookup(env, "BR_BUILD_SCRIPT"), Lookup(argv, "s"), "build-dist"))
  }

  /**
   Setting `BR_DIST_DIR` sets the commit-message template too, to the same
   text, and the `-m` flag is then ignored.
   */
  lemma DistDirVariableSetsCommitTemplate(env: map<string, string>, argv: map<string, string>)
    requires Truthy(Lookup(env, "BR_DIST_DIR"))
    ensures Resolve(env, argv).commitTemplate == Resolve(env, argv).distDir == env["BR_DIST_DIR"]
  {
  }

  /** With nothing configured the defaults apply and there is no token. */
  lemma Defaults()
    ensures Resolve(map[], map[]) == Config("releases", None, "dist", "Release v%ver%", "build-dist")
  {
  }
}
