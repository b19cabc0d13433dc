/** The user record consumed by every authorization check: permission
    flags, path rules, the scope that confines the user's filesystem and
    the lazily built filesystem handle. */
module Users {
  import opened Http

  /** Per-user capability flags and the allow-list of command names. */
  datatype Permissions = Permissions(
    admin: bool,
    execute: bool,
    create: bool,
    rename: bool,
    edit: bool,      // `Modify` in the Go record, serialised as "edit"
    delete: bool,
    share: bool,
    download: bool,
    commands: seq<string>)

  /** A path rule. Its matching semantics live in the rule predicate, which
      is not part of this model (see RuleCheck). */
  datatype Rule = Rule(allow: bool, path: string)

  datatype ViewMode = ListViewMode | MosaicViewMode

  datatype Sorting = Sorting(sortBy: string, asc: bool)

  /** The rule predicate `isAllowed(url, rules)`. Its body is not part of
      this model, so every operation that consults the rules takes it as a
      parameter and assumes nothing about it. */
  type RuleCheck = (string, seq<Rule>) -> bool

  /** A filesystem handle: the operating-system filesystem seen through a
      base path, so that every path is resolved beneath `base`. */
  datatype Fs = BasePathFs(base: string)

  /** What `BuildFs` leaves in the `Fs` field: the current handle when there
      is one, otherwise a fresh base-path handle rooted at the scope. */
  function BuiltFs(current: Option<Fs>, scope: string): (r: Option<Fs>)
    ensures r.Some?
    ensures current.Some? ==> r == current
    ensures current.None? ==> r.value.base == scope
  {
    if current.None? then Some(BasePathFs(scope)) else current
  }

  /** Building twice is building once. */
  lemma BuiltFsIdempotent(current: Option<Fs>, scope: string, otherScope: string)
    ensures BuiltFs(BuiltFs(current, scope), otherScope) == BuiltFs(current, scope)
  {
  }

  class User {
    var id: nat
    var username: string
    var password: string
    var scope: string
    var locale: string
    var lockPassword: bool
    var viewMode: ViewMode
    var perm: Permissions
    var sorting: Sorting
    var fs: Option<Fs>
    var rules: seq<Rule>

    /** A user as it comes out of the store: every stored field set, no
        filesystem handle yet (the handle is never stored). */
    constructor (id: nat, username: string, password: string, scope: string, locale: string,
                 lockPassword: bool, viewMode: ViewMode, perm: Permissions, sorting: Sorting,
                 rules: seq<Rule>)
      ensures this.id == id && this.username == username && this.password == password
      ensures this.scope == scope && this.locale == locale && this.lockPassword == lockPassword
      ensures this.viewMode == viewMode && this.perm == perm && this.sorting == sorting
      ensures this.rules == rules
      ensures fs.None?
    {
      this.id := id;
      this.username := username;
      this.password := password;
      this.scope := scope;
      this.locale := locale;
      this.lockPassword := lockPassword;
      this.viewMode := viewMode;
      this.perm := perm;
      this.sorting := sorting;
      this.rules := rules;
      this.fs := None;
    }

    /** Sets `fs` to a base-path filesystem rooted at the scope, but only when
        no handle has been built yet; no other field changes. */
    method BuildFs()
      modifies this`fs
      ensures fs == BuiltFs(old(fs), scope)
      ensures old(fs).Some? ==> fs == old(fs)
      ensures old(fs).None? ==> fs == Some(BasePathFs(scope))
      ensures id == old(id) && username == old(username) && password == old(password)
      ensures scope == old(scope) && locale == old(locale) && lockPassword == old(lockPassword)
      ensures viewMode == old(viewMode) && perm == old(perm) && sorting == old(sorting)
      ensures rules == old(rules)
    {
      if fs.None? {
        fs := Some(BasePathFs(scope));
      }
    }

    /** Whether the user's rules let it reach `url`: the rule predicate
        applied to the url and the rules, and nothing else. */
    function IsAllowed(url: string, check: RuleCheck): (allowed: bool)
      reads this
      ensures allowed == check(url, rules)
    {
      check(url, rules)
    }
  }

  /** A second `BuildFs` changes nothing: the handle built by the first call
      is kept. */
  method BuildFsTwice(u: User)
    modifies u`fs
    ensures u.fs == BuiltFs(old(u.fs), u.scope)
  {
    u.BuildFs();
    ghost var first := u.fs;
    u.BuildFs();
    assert u.fs == first;
  }

  /** The reachability verdict depends on the url and the rules only: two
      users with the same rules agree on every url, whatever their
      permissions, scope or other fields. */
  lemma IsAllowedDependsOnlyOnRules(u1: User, u2: User, url: string, check: RuleCheck)
    requires u1.rules == u2.rules
    ensures u1.IsAllowed(url, check) == u2.IsAllowed(url, check)
  {
  }
}
