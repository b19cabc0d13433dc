/** The resource handlers: path resolution under the route prefix, the
    classification of filesystem errors into statuses, the permission and
    root-protection guards of GET, DELETE, POST/PUT and PATCH, the ETag of
    a written file, and the sort/order preference of listings.

    The user's filesystem is a map from scope-relative path to node; every
    mutation that the handlers route through the Runner is recorded in a
    call log. */
module Resource {
  import opened Http
  import opened Users
  import Codecs

  const ApiResourcePrefix := "/api/resources"

  // ---------------------------------------------------------------------
  // Filesystem errors and their statuses.
  // ---------------------------------------------------------------------

  /** A filesystem error, seen through the three questions Go's os package
      asks of it: is it a permission error, a not-exist error, an exist
      error. */
  datatype FsError = FsError(permission: bool, notExist: bool, exist: bool)

  const ErrPermission := FsError(true, false, false)
  const ErrNotExist := FsError(false, true, false)
  const ErrExist := FsError(false, false, true)
  /** Any other error (EISDIR, ENOTDIR, an escape error, ...). */
  const ErrOther := FsError(false, false, false)

  /** `httpFsErr`: the status for an error, the first matching case winning:
      none is 200 (RFC 9110 section 15.3.1), a permission error 403 (section
      15.5.4), a not-exist error 404 (section 15.5.5), an exist error 409
      (section 15.5.10), anything else 500. */
  function HttpFsErr(err: Option<FsError>): (status: int)
    ensures status == StatusOK <==> err.None?
    ensures status == StatusForbidden <==> err.Some? && err.value.permission
    ensures status == StatusNotFound <==> err.Some? && !err.value.permission && err.value.notExist
    ensures status == StatusConflict <==>
              err.Some? && !err.value.permission && !err.value.notExist && err.value.exist
    ensures status == StatusInternalServerError <==> err == Some(ErrOther)
  {
    if err.None? then StatusOK
    else if err.value.permission then StatusForbidden
    else if err.value.notExist then StatusNotFound
    else if err.value.exist then StatusConflict
    else StatusInternalServerError
  }

  // ---------------------------------------------------------------------
  // Path resolution (getResourceData).
  // ---------------------------------------------------------------------

  /** The scope-relative path of a request: the route prefix removed, then
      at most one trailing '/', and the empty result replaced by "/". */
  function NormalizePath(urlPath: string, prefix: string): (path: string)
    ensures path != ""
    ensures var rest := TrimPrefix(urlPath, prefix);
            if rest == "" || rest == "/" then path == "/"
            else if HasSuffix(rest, "/") then rest == path + "/"
            else path == rest
  {
    var p := TrimSuffix(TrimPrefix(urlPath, prefix), "/");
    if p == "" then "/" else p
  }

  /** Resolution inverts prefixing: a relative path without a trailing '/'
      comes back unchanged with or without one trailing '/' appended, and
      the bare prefix resolves to the root. */
  lemma NormalizePathOfPrefixed(prefix: string, rel: string)
    requires rel != "" && !HasSuffix(rel, "/")
    ensures NormalizePath(prefix + rel, prefix) == rel
    ensures NormalizePath(prefix + rel + "/", prefix) == rel
    ensures NormalizePath(prefix, prefix) == "/" && NormalizePath(prefix + "/", prefix) == "/"
  {
    assert (prefix + rel)[|prefix|..] == rel;
    assert (prefix + rel + "/")[|prefix|..] == rel + "/";
    assert (rel + "/")[..|rel + "/"| - 1] == rel;
    assert prefix[|prefix|..] == "";
    assert (prefix + "/")[|prefix|..] == "/";
  }

  /** `getResourceData`: the resolved path when the user's rules allow it,
      otherwise 403, decided before any filesystem access. */
  function ResolveResource(urlPath: string, prefix: string, user: User, check: RuleCheck): (r: Result<string, int>)
    reads user
    ensures r.Ok? <==> check(NormalizePath(urlPath, prefix), user.rules)
    ensures r.Ok? ==> r.value == NormalizePath(urlPath, prefix) && r.value != ""
    ensures r.Err? ==> r.error == StatusForbidden
  {
    var path := NormalizePath(urlPath, prefix);
    if !user.IsAllowed(path, check) then Err(StatusForbidden) else Ok(path)
  }

  // ---------------------------------------------------------------------
  // Sort and order preference (handleSortOrder).
  // ---------------------------------------------------------------------

  /** One year, in seconds. */
  const PreferenceMaxAge := 31536000

  const SortValues: set<string> := {"name", "size"}
  const OrderValues: set<string> := {"asc", "desc"}

  function PreferenceCookie(name: string, value: string, scope: string, tls: bool): Cookie
  {
    Cookie(name, value, PreferenceMaxAge, scope, tls)
  }

  /** One preference (`sort` or `order`): an explicit query value is used as
      given, and persisted in a cookie only when it is recognised; without
      one, the cookie the client sent is used, else the default. */
  function Preference(r: Request, key: string, fallback: string, recognised: set<string>, scope: string)
    : (p: (string, seq<Cookie>))
    requires "" !in recognised
    ensures QueryGet(r, key) != "" ==> p.0 == QueryGet(r, key)
    ensures QueryGet(r, key) == "" ==> p.0 == (if key in r.cookies then r.cookies[key] else fallback)
    ensures p.1 != [] <==> QueryGet(r, key) in recognised
    ensures p.1 != [] ==> p.1 == [PreferenceCookie(key, p.0, scope, r.tls)]
  {
    var v := QueryGet(r, key);
    if v == "" then (if key in r.cookies then r.cookies[key] else fallback, [])
    else if v in recognised then (v, [PreferenceCookie(key, v, scope, r.tls)])
    else (v, [])
  }

  datatype SortOrder = SortOrder(sort: string, order: string, cookies: seq<Cookie>)

  /** `handleSortOrder`. It never reports an error, so the 400 branch of its
      caller cannot be taken. */
  function HandleSortOrder(r: Request, scope: string): (so: SortOrder)
    ensures QueryGet(r, "sort") != "" ==> so.sort == QueryGet(r, "sort")
    ensures QueryGet(r, "sort") == "" ==> so.sort == (if "sort" in r.cookies then r.cookies["sort"] else "name")
    ensures QueryGet(r, "order") != "" ==> so.order == QueryGet(r, "order")
    ensures QueryGet(r, "order") == "" ==> so.order == (if "order" in r.cookies then r.cookies["order"] else "asc")
    ensures (exists c | c in so.cookies :: c.name == "sort") <==> QueryGet(r, "sort") in SortValues
    ensures (exists c | c in so.cookies :: c.name == "order") <==> QueryGet(r, "order") in OrderValues
    ensures forall c | c in so.cookies ::
              && c.maxAge == PreferenceMaxAge && c.path == scope && c.secure == r.tls
              && (c.name == "sort" || c.name == "order")
              && c.value == (if c.name == "sort" then so.sort else so.order)
  {
    var (sort, sortCookies) := Preference(r, "sort", "name", SortValues, scope);
    var (order, orderCookies) := Preference(r, "order", "asc", OrderValues, scope);
    SortOrder(sort, order, sortCookies + orderCookies)
  }

  /** The cookie jar of a client that stores every cookie it is sent. */
  function StoreCookies(jar: map<string, string>, cs: seq<Cookie>): map<string, string>
    decreases |cs|
  {
    if cs == [] then jar else StoreCookies(jar[cs[0].name := cs[0].value], cs[1..])
  }

  /** The preference is persisted: after a listing that chose a recognised
      sort key or order, a later listing without parameters from a client
      that kept the cookies uses the same choice. */
  lemma PreferencePersists(r1: Request, r2: Request, scope: string)
    requires QueryGet(r2, "sort") == "" && QueryGet(r2, "order") == ""
    requires r2.cookies == StoreCookies(r1.cookies, HandleSortOrder(r1, scope).cookies)
    ensures QueryGet(r1, "sort") in SortValues ==> HandleSortOrder(r2, scope).sort == QueryGet(r1, "sort")
    ensures QueryGet(r1, "order") in OrderValues ==> HandleSortOrder(r2, scope).order == QueryGet(r1, "order")
  {
    var jar := r1.cookies;
    var s, o := QueryGet(r1, "sort"), QueryGet(r1, "order");
    var sc := if s in SortValues then [PreferenceCookie("sort", s, scope, r1.tls)] else [];
    var oc := if o in OrderValues then [PreferenceCookie("order", o, scope, r1.tls)] else [];
    var cs := HandleSortOrder(r1, scope).cookies;
    assert cs == sc + oc;
    if s in SortValues && o in OrderValues {
      assert cs[1..] == oc;
      assert StoreCookies(jar, cs) == StoreCookies(jar["sort" := s], oc);
      assert StoreCookies(jar["sort" := s], oc) == jar["sort" := s]["order" := o];
    } else if s in SortValues {
      assert StoreCookies(jar, cs) == StoreCookies(jar["sort" := s], []);
    } else if o in OrderValues {
      assert StoreCookies(jar, cs) == StoreCookies(jar["order" := o], []);
    }
  }

  // ---------------------------------------------------------------------
  // GET (resourceGetHandler).
  // ---------------------------------------------------------------------

  /** The listing attributes the handler sets; the listed items and their
      ordering (ApplySort) are not part of this model. */
  datatype Listing = Listing(sort: string, order: string)

  /** What NewFileInfo reports about a path. */
  datatype FileInfo = FileInfo(
    path: string,
    isDir: bool,
    fileType: string,
    content: string,
    checksums: map<string, string>,
    listing: Listing)

  /** The outcome of `file.Checksum(algorithm)`. */
  datatype ChecksumResult = Computed(checksums: map<string, string>) | InvalidOption | ChecksumFailed

  /** NewFileInfo(user, path) and FileInfo.Checksum, whose bodies are not part
      of this model, are parameters of the GET handler. */
  type FileInfoSource = string -> Result<FileInfo, FsError>
  type ChecksumSource = (FileInfo, string) -> ChecksumResult

  /** A text file is reported as read-only to a user without the modify
      permission. */
  function ReadOnlyView(file: FileInfo, perm: Permissions): (f: FileInfo)
    ensures f.fileType == "text" ==> perm.edit
    ensures f.fileType == "textImmutable" <==>
              file.fileType == "textImmutable" || (file.fileType == "text" && !perm.edit)
    ensures f == file.(fileType := f.fileType)
    ensures file.fileType == "text" && !perm.edit ==> f == file.(fileType := "textImmutable")
    ensures !(file.fileType == "text" && !perm.edit) ==> f == file
  {
    if !perm.edit && file.fileType == "text" then file.(fileType := "textImmutable") else file
  }

  /** `resourceGetHandler`. */
  function GetResource(r: Request, user: User, check: RuleCheck, newFileInfo: FileInfoSource,
                       checksum: ChecksumSource): (resp: Response<FileInfo>)
    reads user
    ensures var gate := ResolveResource(r.urlPath, ApiResourcePrefix, user, check);
            gate.Err? ==> resp == StatusOnly(StatusForbidden)
    ensures var gate := ResolveResource(r.urlPath, ApiResourcePrefix, user, check);
            gate.Ok? && newFileInfo(gate.value).Err? ==>
              resp == StatusOnly(HttpFsErr(Some(newFileInfo(gate.value).error)))
    ensures var gate := ResolveResource(r.urlPath, ApiResourcePrefix, user, check);
            gate.Ok? && newFileInfo(gate.value).Ok? && newFileInfo(gate.value).value.isDir ==>
              var so := HandleSortOrder(r, "/");
              resp == Response(StatusOK, Some(newFileInfo(gate.value).value.(listing := Listing(so.sort, so.order))),
                               map[], so.cookies)
    ensures var gate := ResolveResource(r.urlPath, ApiResourcePrefix, user, check);
            gate.Ok? && newFileInfo(gate.value).Ok? && !newFileInfo(gate.value).value.isDir ==>
              var f := ReadOnlyView(newFileInfo(gate.value).value, user.perm);
              var algorithm := QueryGet(r, "checksum");
              if algorithm == "" then resp == Response(StatusOK, Some(f), map[], [])
              else if checksum(f, algorithm).InvalidOption? then resp == StatusOnly(StatusBadRequest)
              else if checksum(f, algorithm).ChecksumFailed? then resp == StatusOnly(StatusInternalServerError)
              else resp == Response(StatusOK, Some(f.(checksums := checksum(f, algorithm).checksums, content := "")),
                                    map[], [])
    ensures resp.status == StatusBadRequest ==> QueryGet(r, "checksum") != ""
    ensures resp.status == StatusOK && resp.body.Some? && !resp.body.value.isDir ==>
              (resp.body.value.fileType == "text" ==> user.perm.edit)
    ensures resp.status == StatusOK && resp.body.Some? && !resp.body.value.isDir && QueryGet(r, "checksum") != "" ==>
              resp.body.value.content == ""
    ensures resp.status == StatusOK <==> resp.body.Some?
  {
    var gate := ResolveResource(r.urlPath, ApiResourcePrefix, user, check);
    if gate.Err? then StatusOnly(StatusForbidden)
    else
      var info := newFileInfo(gate.value);
      if info.Err? then StatusOnly(HttpFsErr(Some(info.error)))
      else if info.value.isDir then
        var so := HandleSortOrder(r, "/");
        Response(StatusOK, Some(info.value.(listing := Listing(so.sort, so.order))), map[], so.cookies)
      else
        var file := ReadOnlyView(info.value, user.perm);
        var algorithm := QueryGet(r, "checksum");
        if algorithm == "" then Response(StatusOK, Some(file), map[], [])
        else
          match checksum(file, algorithm)
          case InvalidOption => StatusOnly(StatusBadRequest)
          case ChecksumFailed => StatusOnly(StatusInternalServerError)
          case Computed(sums) =>
            // the content is dropped when only the checksum was asked for
            Response(StatusOK, Some(file.(checksums := sums, content := "")), map[], [])
  }

  /** A request the rules refuse is answered without consulting the
      filesystem: the response is the same whatever NewFileInfo and Checksum
      would say. */
  lemma GetForbiddenBeforeFilesystem(r: Request, user: User, check: RuleCheck,
                                     n1: FileInfoSource, c1: ChecksumSource,
                                     n2: FileInfoSource, c2: ChecksumSource)
    requires !check(NormalizePath(r.urlPath, ApiResourcePrefix), user.rules)
    ensures GetResource(r, user, check, n1, c1) == GetResource(r, user, check, n2, c2) == StatusOnly(StatusForbidden)
  {
  }

  /** A directory listing never fails with 400: the error branch after
      handleSortOrder is unreachable. */
  lemma GetDirectoryNeverBadRequest(r: Request, user: User, check: RuleCheck,
                                    newFileInfo: FileInfoSource, checksum: ChecksumSource)
    requires ResolveResource(r.urlPath, ApiResourcePrefix, user, check).Ok?
    requires var info := newFileInfo(NormalizePath(r.urlPath, ApiResourcePrefix)); info.Ok? && info.value.isDir
    ensures GetResource(r, user, check, newFileInfo, checksum).status == StatusOK
  {
  }

  // ---------------------------------------------------------------------
  // The ETag of a written file.
  // ---------------------------------------------------------------------

  /** etagc of RFC 9110 section 8.8.3: %x21 / %x23-7E / obs-text. */
  predicate IsEntityTagChar(c: char)
  {
    c == '!' || ('#' <= c <= '~') || c as int >= 0x80
  }

  /** A strong entity tag: an opaque-tag, i.e. etagc characters in double
      quotes, with no weak prefix. */
  predicate IsStrongEntityTag(t: string)
  {
    |t| >= 2 && t[0] == '"' && t[|t| - 1] == '"' && forall i | 0 < i < |t| - 1 :: IsEntityTagChar(t[i])
  }

  /** The text of %x is made of hexadecimal digits and '-', all of them
      entity-tag characters. */
  lemma FormatHexIsTagText(n: int)
    ensures forall i | 0 <= i < |Codecs.FormatHex(n)| ::
              (Codecs.IsHexDigit(Codecs.FormatHex(n)[i]) || Codecs.FormatHex(n)[i] == '-')
              && IsEntityTagChar(Codecs.FormatHex(n)[i])
  {
    var t := Codecs.FormatHex(n);
    forall i | 0 <= i < |t| ensures (Codecs.IsHexDigit(t[i]) || t[i] == '-') && IsEntityTagChar(t[i]) {
      if n < 0 && i > 0 {
        assert t[i] == Codecs.HexNat(-n)[i - 1];
      }
    }
  }

  /** Two non-empty texts of hexadecimal digits and '-', put together in
      double quotes, form a strong entity tag. */
  lemma QuotedHexIsTag(a: string, b: string)
    requires a != [] && b != []
    requires forall i | 0 <= i < |a| :: (Codecs.IsHexDigit(a[i]) || a[i] == '-') && IsEntityTagChar(a[i])
    requires forall i | 0 <= i < |b| :: (Codecs.IsHexDigit(b[i]) || b[i] == '-') && IsEntityTagChar(b[i])
    ensures var t := "\"" + a + b + "\"";
            && IsStrongEntityTag(t) && |t| >= 4
            && forall i | 0 < i < |t| - 1 :: Codecs.IsHexDigit(t[i]) || t[i] == '-'
  {
    var t := "\"" + a + b + "\"";
    forall i | 0 < i < |t| - 1
      ensures (Codecs.IsHexDigit(t[i]) || t[i] == '-') && IsEntityTagChar(t[i])
    {
      if i <= |a| {
        assert t[i] == a[i - 1];
      } else {
        assert t[i] == b[i - 1 - |a|];
      }
    }
  }

  /** The ETag of a file: its modification time in nanoseconds and its size,
      both in lower-case hexadecimal, inside double quotes. */
  function ETag(modTimeNanos: int, size: int): (tag: string)
    ensures IsStrongEntityTag(tag)
    ensures forall i | 0 < i < |tag| - 1 :: Codecs.IsHexDigit(tag[i]) || tag[i] == '-'
    ensures |tag| >= 4
  {
    FormatHexIsTagText(modTimeNanos);
    FormatHexIsTagText(size);
    Codecs.FormatHexSign(modTimeNanos);
    Codecs.FormatHexSign(size);
    QuotedHexIsTag(Codecs.FormatHex(modTimeNanos), Codecs.FormatHex(size));
    "\"" + Codecs.FormatHex(modTimeNanos) + Codecs.FormatHex(size) + "\""
  }

  /** While the modification time keeps the same number of hexadecimal digits
      (every instant from 2006 to 2262 has sixteen), the ETag determines the
      modification time and the size. */
  lemma ETagDeterminesVersion(m1: int, s1: int, m2: int, s2: int)
    requires |Codecs.FormatHex(m1)| == |Codecs.FormatHex(m2)|
    requires ETag(m1, s1) == ETag(m2, s2)
    ensures m1 == m2 && s1 == s2
  {
    QuotedPartsEqual(Codecs.FormatHex(m1), Codecs.FormatHex(s1), Codecs.FormatHex(m2), Codecs.FormatHex(s2));
    Codecs.FormatHexInjective(m1, m2);
    Codecs.FormatHexInjective(s1, s2);
  }

  /** Quoted concatenations with first parts of equal length have equal
      parts. */
  lemma QuotedPartsEqual(a1: string, b1: string, a2: string, b2: string)
    requires |a1| == |a2| && "\"" + a1 + b1 + "\"" == "\"" + a2 + b2 + "\""
    ensures a1 == a2 && b1 == b2
  {
    var t := "\"" + a1 + b1 + "\"";
    var inner := t[1..|t| - 1];
    assert inner == a1 + b1;
    assert inner == a2 + b2 by {
      assert t == "\"" + a2 + b2 + "\"";
    }
    assert a1 == inner[..|a1|] == a2;
    assert b1 == inner[|a1|..] == b2;
  }

  /** Without a fixed width the two numbers run together: a file written at
      0x1 ns with 0x23 bytes and one written at 0x12 ns with 0x3 bytes share
      the ETag "123". */
  lemma ETagAmbiguousAcrossWidths()
    ensures ETag(0x1, 0x23) == ETag(0x12, 0x3) == "\"123\""
  {
    assert Codecs.HexNat(0x23) == Codecs.HexNat(2) + [Codecs.HexDigit(3)];
    assert Codecs.HexNat(0x12) == Codecs.HexNat(1) + [Codecs.HexDigit(2)];
  }

  // ---------------------------------------------------------------------
  // The filesystem seen through the user's base path.
  // ---------------------------------------------------------------------

  datatype Node = Dir | File(content: seq<byte>, modTimeNanos: int)

  /** Every entry of the user's filesystem, by scope-relative path. */
  type Files = map<string, Node>

  /** `key` names `path` itself or something beneath it. */
  predicate Within(key: string, path: string)
  {
    key == path || HasPrefix(key, if HasSuffix(path, "/") then path else path + "/")
  }

  /** `RemoveAll`: the path and everything beneath it disappear, everything
      else stays; a missing path is not an error. */
  function RemoveAll(files: Files, path: string): (r: Files)
    ensures path !in r
    ensures forall k :: k in r <==> k in files && !Within(k, path)
    ensures forall k | k in r :: r[k] == files[k]
  {
    map k | k in files && !Within(k, path) :: files[k]
  }

  /** `MkdirAll`: succeeds when the path is absent or already a directory,
      leaving a directory there; fails (ENOTDIR) on a file. */
  function MkdirAll(files: Files, path: string): (r: (Files, Option<FsError>))
    ensures r.1.None? <==> !(path in files && files[path].File?)
    ensures r.1.None? ==> r.0 == files[path := Dir] && r.0.Keys == files.Keys + {path}
    ensures r.1.Some? ==> r.0 == files && r.1 == Some(ErrOther)
  {
    if path in files && files[path].File? then (files, Some(ErrOther))
    else (files[path := Dir], None)
  }

  /** `OpenFile(path, O_RDWR|O_CREATE|O_TRUNC)` followed by copying the body:
      the file's content becomes the body and its modification time the
      current time; opening a directory for writing fails (EISDIR). */
  function WriteFile(files: Files, path: string, body: seq<byte>, now: int): (r: (Files, Option<FsError>))
    ensures r.1.None? <==> !(path in files && files[path].Dir?)
    ensures r.1.None? ==> r.0 == files[path := File(body, now)]
    ensures r.1.Some? ==> r.0 == files && r.1 == Some(ErrOther)
  {
    if path in files && files[path].Dir? then (files, Some(ErrOther))
    else (files[path := File(body, now)], None)
  }

  /** `Rename`: the entry moves from src to dst, replacing what was there;
      a missing source is a not-exist error. */
  function Rename(files: Files, src: string, dst: string): (r: (Files, Option<FsError>))
    ensures src !in files ==> r == (files, Some(ErrNotExist))
    ensures src in files ==> r.1.None? && dst in r.0 && r.0[dst] == files[src]
    ensures src in files && src != dst ==> src !in r.0
    ensures forall k | k != src && k != dst :: (k in r.0 <==> k in files) && (k in r.0 ==> r.0[k] == files[k])
  {
    if src !in files then (files, Some(ErrNotExist))
    else ((files - {src})[dst := files[src]], None)
  }

  // ---------------------------------------------------------------------
  // The mutating handlers.
  // ---------------------------------------------------------------------

  /** One call of `Runner.Run`: the operation name, source, destination and
      acting user. */
  datatype RunCall = RunCall(name: string, src: string, dst: string, username: string)

  /** POST needs the create permission and PUT the modify permission. */
  predicate WritePermitted(verb: Method, perm: Permissions)
  {
    !(verb == POST && !perm.create) && !(verb == PUT && !perm.edit)
  }

  /** A PATCH action other than "copy" is a rename; "copy" needs the create
      permission, an explicit "rename" needs nothing, any other action needs
      the rename permission. */
  predicate PatchPermitted(action: string, perm: Permissions)
  {
    if action == "copy" then perm.create
    else if action == "rename" then true
    else perm.rename
  }

  class ResourceEnv {
    /** The contents of the user's filesystem. */
    var files: Files
    /** Every operation passed to the Runner, in order. */
    var runs: seq<RunCall>

    /** The scope root exists and is a directory. */
    ghost predicate Valid()
      reads this
    {
      "/" in files && files["/"].Dir?
    }

    constructor (files: Files)
      requires "/" in files && files["/"].Dir?
      ensures Valid() && this.files == files && runs == []
    {
      this.files := files;
      runs := [];
    }

    /** `resourceDeleteHandler`: the root and users without the delete
        permission are refused with nothing changed; otherwise the path is
        removed recursively through one Runner call. */
    method Delete(r: Request, user: User, check: RuleCheck) returns (resp: Response<FileInfo>)
      requires Valid()
      modifies this
      ensures Valid()
      ensures var gate := ResolveResource(r.urlPath, ApiResourcePrefix, user, check);
              if gate.Err? || gate.value == "/" || !user.perm.delete then
                resp == StatusOnly(StatusForbidden) && files == old(files) && runs == old(runs)
              else
                && runs == old(runs) + [RunCall("delete", gate.value, "", user.username)]
                && files == RemoveAll(old(files), gate.value)
                && resp == StatusOnly(StatusOK)
    {
      var gate := ResolveResource(r.urlPath, ApiResourcePrefix, user, check);
      if gate.Err? {
        return StatusOnly(gate.error);
      }
      var path := gate.value;
      if path == "/" || !user.perm.delete {
        return StatusOnly(StatusForbidden);
      }
      runs := runs + [RunCall("delete", path, "", user.username)];
      files := RemoveAll(files, path);
      resp := StatusOnly(HttpFsErr(None));
    }

    /** `resourcePostPutHandler`. */
    method PostPut(r: Request, user: User, check: RuleCheck, now: int) returns (resp: Response<FileInfo>)
      requires Valid()
      modifies this
      ensures Valid()
      ensures var gate := ResolveResource(r.urlPath, ApiResourcePrefix, user, check);
              gate.Err? || !WritePermitted(r.verb, user.perm) ==>
                resp == StatusOnly(StatusForbidden) && files == old(files) && runs == old(runs)
      ensures var gate := ResolveResource(r.urlPath, ApiResourcePrefix, user, check);
              gate.Ok? && WritePermitted(r.verb, user.perm) && HasSuffix(r.urlPath, "/") ==>
                && runs == old(runs)
                && (r.verb == PUT ==> resp == StatusOnly(StatusMethodNotAllowed) && files == old(files))
                && (r.verb != PUT ==>
                      var (after, err) := MkdirAll(old(files), gate.value);
                      files == after && resp == StatusOnly(HttpFsErr(err)))
      ensures var gate := ResolveResource(r.urlPath, ApiResourcePrefix, user, check);
              gate.Ok? && WritePermitted(r.verb, user.perm) && !HasSuffix(r.urlPath, "/") &&
              r.verb == POST && QueryGet(r, "override") != "true" && gate.value in old(files) ==>
                resp == StatusOnly(StatusConflict) && files == old(files) && runs == old(runs)
      ensures var gate := ResolveResource(r.urlPath, ApiResourcePrefix, user, check);
              gate.Ok? && WritePermitted(r.verb, user.perm) && !HasSuffix(r.urlPath, "/") &&
              !(r.verb == POST && QueryGet(r, "override") != "true" && gate.value in old(files)) ==>
                var (after, err) := WriteFile(old(files), gate.value, r.body, now);
                && runs == old(runs) + [RunCall("upload", gate.value, "", user.username)]
                && files == after
                && (err.None? ==> resp == Response(StatusOK, None, map["ETag" := ETag(now, |r.body|)], []))
                && (err.Some? ==> resp == StatusOnly(HttpFsErr(err)))
    {
      var gate := ResolveResource(r.urlPath, ApiResourcePrefix, user, check);
      if gate.Err? {
        return StatusOnly(gate.error);
      }
      var path := gate.value;
      if !user.perm.create && r.verb == POST {
        return StatusOnly(StatusForbidden);
      }
      if !user.perm.edit && r.verb == PUT {
        return StatusOnly(StatusForbidden);
      }
      // A directory-shaped URL only creates a directory, and only by POST.
      if HasSuffix(r.urlPath, "/") {
        if r.verb == PUT {
          resp := StatusOnly(StatusMethodNotAllowed);
        } else {
          var (after, err) := MkdirAll(files, path);
          files := after;
          resp := StatusOnly(HttpFsErr(err));
        }
        return;
      }
      if r.verb == POST && QueryGet(r, "override") != "true" {
        if path in files {
          return StatusOnly(StatusConflict);
        }
      }
      runs := runs + [RunCall("upload", path, "", user.username)];
      var (after, err) := WriteFile(files, path, r.body, now);
      files := after;
      if err.Some? {
        return StatusOnly(HttpFsErr(err));
      }
      var written := files[path];
      resp := Response(StatusOK, None, map["ETag" := ETag(written.modTimeNanos, |written.content|)], []);
    }

    /** `resourcePatchHandler`: the destination query value is unescaped by
        `unescape` (url.QueryUnescape); the root as source or destination is
        refused; the action decides the permission; the Runner is called
        with the name "action"; "copy" changes nothing. */
    method Patch(r: Request, user: User, check: RuleCheck, unescape: string -> Option<string>)
      returns (resp: Response<FileInfo>)
      requires Valid()
      modifies this
      ensures Valid()
      ensures var gate := ResolveResource(r.urlPath, ApiResourcePrefix, user, check);
              var dst := unescape(QueryGet(r, "destination"));
              var action := QueryGet(r, "action");
              if gate.Err? then
                resp == StatusOnly(StatusForbidden) && files == old(files) && runs == old(runs)
              else if dst.None? then
                resp == StatusOnly(StatusInternalServerError) && files == old(files) && runs == old(runs)
              else if dst.value == "/" || gate.value == "/" || !PatchPermitted(action, user.perm) then
                resp == StatusOnly(StatusForbidden) && files == old(files) && runs == old(runs)
              else
                && runs == old(runs) + [RunCall("action", gate.value, dst.value, user.username)]
                && (action == "copy" ==> files == old(files) && resp == StatusOnly(StatusOK))
                && (action != "copy" ==>
                      var (after, err) := Rename(old(files), gate.value, dst.value);
                      files == after && resp == StatusOnly(HttpFsErr(err)))
    {
      var gate := ResolveResource(r.urlPath, ApiResourcePrefix, user, check);
      if gate.Err? {
        return StatusOnly(gate.error);
      }
      var src := gate.value;
      var action := QueryGet(r, "action");
      var unescaped := unescape(QueryGet(r, "destination"));
      if unescaped.None? {
        return StatusOnly(HttpFsErr(Some(ErrOther)));
      }
      var dst := unescaped.value;
      if dst == "/" || src == "/" {
        return StatusOnly(StatusForbidden);
      }
      if action == "copy" {
        if !user.perm.create {
          return StatusOnly(StatusForbidden);
        }
      } else if action != "rename" {
        action := "rename";
        if !user.perm.rename {
          return StatusOnly(StatusForbidden);
        }
      }
      runs := runs + [RunCall("action", src, dst, user.username)];
      var err: Option<FsError> := None;
      if action != "copy" {
        var (after, e) := Rename(files, src, dst);
        files, err := after, e;
      }
      resp := StatusOnly(HttpFsErr(err));
    }
  }
}
