/** The dependency-free static file server: its command-line parser and the
    decision it makes for each request (method gate, path normalisation,
    containment check, directory index fallback, content type). */
module StaticServer {
  import opened JsValues
  import opened Strings

  // ---------------------------------------------------------------------
  // Command line

  /** The port as configured: the built-in default, or the raw text given
      on the command line (its numeric conversion is not modelled). */
  datatype Port = DefaultPort(n: nat) | PortText(raw: string)

  datatype Options = Options(dir: string, port: Port)

  const Defaults: Options := Options(".", DefaultPort(8000))

  /** Options that read their value from the next argument. */
  predicate TakesValue(a: string) {
    a == "--dir" || a == "-p" || a == "--port"
  }

  /** The piece after the first `=` and before any second one:
      `a.split('=')[1]`. */
  function ValueAfterEquals(a: string): (v: string)
    requires '=' in a
  {
    Split(a, '=')[1]
  }

  /** The parse of the remaining arguments from the options so far: the
      reference reading of the parsing loop, one argument (or one option
      with its value) at a time. */
  function ParseFrom(opts: Options, args: seq<string>): (r: Options)
    decreases |args|
  {
    if |args| == 0 then opts
    else
      var a := args[0];
      if a == "--dir" && |args| > 1 && args[1] != "" then
        ParseFrom(opts.(dir := args[1]), args[2..])
      else if (a == "-p" || a == "--port") && |args| > 1 && args[1] != "" then
        ParseFrom(opts.(port := PortText(args[1])), args[2..])
      else if StartsWith(a, "--port=") then
        assert a[6] == "--port="[6];
        ParseFrom(opts.(port := PortText(ValueAfterEquals(a))), args[1..])
      else if StartsWith(a, "--dir=") then
        assert a[5] == "--dir="[5];
        ParseFrom(opts.(dir := ValueAfterEquals(a)), args[1..])
      else
        ParseFrom(opts, args[1..])
  }

  /** The parsing loop as written: an index that an option with a value
      advances twice. */
  method ParseArgv(argv: seq<string>) returns (opts: Options)
    ensures opts == ParseFrom(Defaults, argv)
  {
    opts := Defaults;
    var i := 0;
    while i < |argv|
      invariant 0 <= i <= |argv|
      invariant ParseFrom(opts, argv[i..]) == ParseFrom(Defaults, argv)
    {
      var a := argv[i];
      if a == "--dir" && i + 1 < |argv| && argv[i + 1] != "" {
        assert argv[i..][2..] == argv[i + 2..];
        opts := opts.(dir := argv[i + 1]);
        i := i + 1;
      } else if (a == "-p" || a == "--port") && i + 1 < |argv| && argv[i + 1] != "" {
        assert argv[i..][2..] == argv[i + 2..];
        opts := opts.(port := PortText(argv[i + 1]));
        i := i + 1;
      } else if StartsWith(a, "--port=") {
        assert a[6] == "--port="[6];
        assert argv[i..][1..] == argv[i + 1..];
        opts := opts.(port := PortText(ValueAfterEquals(a)));
      } else if StartsWith(a, "--dir=") {
        assert a[5] == "--dir="[5];
        assert argv[i..][1..] == argv[i + 1..];
        opts := opts.(dir := ValueAfterEquals(a));
      } else {
        assert argv[i..][1..] == argv[i + 1..];
      }
      i := i + 1;
    }
    assert argv[i..] == [];
  }

  /** With no arguments the server serves `.` on port 8000. */
  lemma NoArgumentsGiveDefaults()
    ensures ParseFrom(Defaults, []) == Options(".", DefaultPort(8000))
  {
  }

  /** An argument that is no option is skipped. */
  lemma UnknownArgumentIgnored(opts: Options, a: string, rest: seq<string>)
    requires !TakesValue(a) && !StartsWith(a, "--port=") && !StartsWith(a, "--dir=")
    ensures ParseFrom(opts, [a] + rest) == ParseFrom(opts, rest)
  {
    assert ([a] + rest)[1..] == rest;
  }

  /** A value-taking option at the end of the list, or followed by an empty
      argument, takes no value: it is skipped and the argument after it is
      read as an argument of its own. */
  lemma OptionWithoutValueSkipped(opts: Options, a: string, rest: seq<string>)
    requires TakesValue(a)
    requires |rest| == 0 || rest[0] == ""
    ensures ParseFrom(opts, [a] + rest) == ParseFrom(opts, rest)
  {
    assert ([a] + rest)[1..] == rest;
    assert !StartsWith(a, "--port=") by {
      assert |a| <= 6;
    }
    assert !StartsWith(a, "--dir=") by {
      if |a| >= 6 {
        assert a == "--port" && a[..6][2] == 'p';
      }
    }
  }

  /** `--port=v` keeps only the part of `v` before a further `=`. */
  lemma PortEqualsTakesFirstPiece(opts: Options, v: string, rest: seq<string>)
    ensures ParseFrom(opts, ["--port=" + v] + rest) == ParseFrom(opts.(port := PortText(Split(v, '=')[0])), rest)
  {
    var a := "--port=" + v;
    assert a == "--port" + ['='] + v;
    SecondPieceAfterPrefix("--port", '=', v);
    assert a[..7] == "--port=";
    assert a != "--dir" && a != "-p" && a != "--port" by {
      assert |a| >= 7;
    }
    assert ([a] + rest)[0] == a && ([a] + rest)[1..] == rest;
  }

  /** `--dir=v` likewise. */
  lemma DirEqualsTakesFirstPiece(opts: Options, v: string, rest: seq<string>)
    ensures ParseFrom(opts, ["--dir=" + v] + rest) == ParseFrom(opts.(dir := Split(v, '=')[0]), rest)
  {
    var a := "--dir=" + v;
    assert a == "--dir" + ['='] + v;
    SecondPieceAfterPrefix("--dir", '=', v);
    assert a[..6] == "--dir=";
    assert !StartsWith(a, "--port=") by {
      if |a| >= 7 {
        assert a[..7][2] == 'd';
      }
    }
    assert a != "--dir" && a != "-p" && a != "--port" by {
      assert a[5] == '=';
    }
    assert ([a] + rest)[0] == a && ([a] + rest)[1..] == rest;
  }

  /** The arguments end cleanly: no value-taking option is left waiting for
      a value past the end. */
  predicate EndsClean(args: seq<string>)
    decreases |args|
  {
    if |args| == 0 then true
    else if |args| == 1 then !TakesValue(args[0])
    else if TakesValue(args[0]) && args[1] != "" then EndsClean(args[2..])
    else EndsClean(args[1..])
  }

  /** Parsing a cleanly ending list and then more arguments is parsing the
      first list and continuing from its options. */
  lemma {:induction false} ParseAppend(opts: Options, xs: seq<string>, ys: seq<string>)
    requires EndsClean(xs)
    ensures ParseFrom(opts, xs + ys) == ParseFrom(ParseFrom(opts, xs), ys)
    decreases |xs|
  {
    if |xs| == 0 {
      assert xs + ys == ys;
    } else {
      var a := xs[0];
      var s := xs + ys;
      assert s[0] == a;
      if |xs| == 1 {
        assert s[1..] == ys;
        assert !TakesValue(a);
        assert xs[1..] == [];
      } else if TakesValue(a) && xs[1] != "" {
        assert s[1] == xs[1];
        assert s[2..] == xs[2..] + ys;
        ParseAppend(if a == "--dir" then opts.(dir := xs[1]) else opts.(port := PortText(xs[1])), xs[2..], ys);
      } else {
        assert s[1..] == xs[1..] + ys;
        if StartsWith(a, "--port=") {
          assert a[6] == "--port="[6];
          ParseAppend(opts.(port := PortText(ValueAfterEquals(a))), xs[1..], ys);
        } else if StartsWith(a, "--dir=") {
          assert a[5] == "--dir="[5];
          ParseAppend(opts.(dir := ValueAfterEquals(a)), xs[1..], ys);
        } else {
          ParseAppend(opts, xs[1..], ys);
        }
      }
    }
  }

  /** A later `--dir` overrides whatever the earlier arguments set, as long
      as they end cleanly. */
  lemma LaterDirOverrides(xs: seq<string>, d: string)
    requires EndsClean(xs) && d != ""
    ensures ParseFrom(Defaults, xs + ["--dir", d]).dir == d
    ensures ParseFrom(Defaults, xs + ["--dir", d]).port == ParseFrom(Defaults, xs).port
  {
    ParseAppend(Defaults, xs, ["--dir", d]);
    assert ["--dir", d][2..] == [];
  }

  /** A later `--port` likewise overrides the earlier setting. */
  lemma LaterPortOverrides(xs: seq<string>, p: string)
    requires EndsClean(xs) && p != ""
    ensures ParseFrom(Defaults, xs + ["--port", p]).port == PortText(p)
    ensures ParseFrom(Defaults, xs + ["--port", p]).dir == ParseFrom(Defaults, xs).dir
  {
    ParseAppend(Defaults, xs, ["--port", p]);
    assert ["--port", p][2..] == [];
  }

  // ---------------------------------------------------------------------
  // Requests

  /** Only GET and HEAD are served. */
  predicate MethodAllowed(m: string) {
    m == "GET" || m == "HEAD"
  }

  /** The request path relative to the served directory: one leading `/`
      dropped, and the empty path read as `index.html`. */
  function RelativePath(pathname: string): (rel: string)
    ensures rel != ""
    ensures pathname == "" || pathname == "/" ==> rel == "index.html"
    ensures pathname != "" && pathname != "/" ==>
      (if pathname[0] == '/' then "/" + rel else rel) == pathname
  {
    var r := if StartsWith(pathname, "/") then pathname[1..] else pathname;
    if r == "" then "index.html" else r
  }

  /** The containment check as written: the resolved path has the served
      directory as a string prefix. */
  predicate ContainedAsWritten(dir: string, full: string) {
    StartsWith(full, dir)
  }

  /** The directory with exactly one trailing `/`. */
  function WithSlash(dir: string): string {
    if |dir| > 0 && dir[|dir| - 1] == '/' then dir else dir + "/"
  }

  /** The containment check as intended: the resolved path is the served
      directory itself or lies below it, path component by component. */
  predicate Within(dir: string, full: string) {
    full == dir || StartsWith(full, WithSlash(dir))
  }

  /** The prefix check admits a sibling directory whose name extends the
      served one: serving `/srv/site`, the request path
      `/../site-private/key` resolves to `/srv/site-private/key`. */
  lemma PrefixCheckAdmitsSibling()
    ensures ContainedAsWritten("/srv/site", "/srv/site-private/key")
    ensures !Within("/srv/site", "/srv/site-private/key")
  {
    assert "/srv/site-private/key"[..9] == "/srv/site";
    assert "/srv/site-private/key"[..10][9] == '-';
  }

  /** The corrected check is never looser than the prefix check, accepts
      everything below the directory, and rejects every sibling whose name
      merely extends the directory's. */
  lemma WithinIsPathContainment(dir: string, rest: string, x: string)
    requires dir != "" && dir[|dir| - 1] != '/'
    ensures forall full :: Within(dir, full) ==> ContainedAsWritten(dir, full)
    ensures Within(dir, dir + "/" + rest)
    ensures x != "" && x[0] != '/' ==> ContainedAsWritten(dir, dir + x) && !Within(dir, dir + x)
  {
    assert (dir + "/" + rest)[..|dir| + 1] == dir + "/";
    assert (dir + x)[..|dir|] == dir;
    if x != "" && x[0] != '/' {
      assert (dir + x)[|dir|] == x[0];
    }
    forall full | Within(dir, full)
      ensures ContainedAsWritten(dir, full)
    {
      if full != dir {
        assert full[..|dir| + 1][..|dir|] == full[..|dir|];
        assert (dir + "/")[..|dir|] == dir;
      }
    }
  }

  /** `path.join(full, 'index.html')` for a resolved path. */
  function IndexOf(full: string): string {
    WithSlash(full) + "index.html"
  }

  /** The last component of a path: `path.basename(p)` for a path without
      a trailing `/`. */
  function Basename(p: string): (base: string)
    ensures '/' !in base
    ensures |base| <= |p| && base == p[|p| - |base|..]
    // the component starts right after the last `/`, or is the whole path
    ensures '/' !in p ==> base == p
    ensures '/' in p ==> |base| < |p| && p[|p| - |base| - 1] == '/'
  {
    var j := LastIndexOf(p, '/') + 1;
    assert forall i :: 0 <= i < |p[j..]| ==> p[j..][i] == p[j + i];
    p[j..]
  }

  /** The extension of a last component: from its last `.`, unless that dot
      starts it or the component is `..`. */
  function ExtOfBase(base: string): (ext: string)
    ensures ext == "" || ext[0] == '.'
    ensures |ext| <= |base| && ext == base[|base| - |ext|..]
    // a non-empty extension is a proper suffix holding no further `.`
    ensures ext != "" ==> '.' !in ext[1..] && |ext| < |base|
  {
    var k := LastIndexOf(base, '.');
    if k <= 0 || base == ".." then ""
    else
      assert forall i :: 1 <= i < |base[k..]| ==> base[k..][i] == base[k + i];
      base[k..]
  }

  /** A component has no extension exactly when it is `..` or has no `.`
      past its first character. */
  lemma NoExtensionOfBase(base: string)
    ensures ExtOfBase(base) == "" <==> base == ".." || forall k :: 0 < k < |base| ==> base[k] != '.'
  {
  }

  /** A suffix of a suffix is a suffix. */
  lemma SuffixOfSuffix(p: string, b: string, e: string)
    requires |b| <= |p| && b == p[|p| - |b|..]
    requires |e| <= |b| && e == b[|b| - |e|..]
    ensures |e| <= |p| && e == p[|p| - |e|..]
  {
    assert forall i :: 0 <= i < |e| ==> e[i] == b[|b| - |e| + i] == p[|p| - |b| + |b| - |e| + i];
  }

  /** `path.extname(p)` for a path without a trailing `/`. */
  function Extname(p: string): (ext: string)
    ensures ext == "" || ext[0] == '.'
    ensures '/' !in ext
    // the extension ends the path and holds no further `.`
    ensures |ext| <= |p| && ext == p[|p| - |ext|..]
    ensures ext != "" ==> '.' !in ext[1..]
  {
    ExtensionEndsPath(p);
    ExtOfBase(Basename(p))
  }

  /** A path has no extension exactly when its last component is `..` or
      has no `.` past its first character. */
  lemma NoExtension(p: string)
    ensures Extname(p) == "" <==>
      Basename(p) == ".." || forall k :: 0 < k < |Basename(p)| ==> Basename(p)[k] != '.'
  {
    NoExtensionOfBase(Basename(p));
  }

  /** The extension of the last component ends the path and holds no `/`. */
  lemma ExtensionEndsPath(p: string)
    ensures var ext := ExtOfBase(Basename(p));
      '/' !in ext && |ext| <= |p| && ext == p[|p| - |ext|..]
  {
    var base := Basename(p);
    var ext := ExtOfBase(base);
    SuffixLacks(base, ext, '/');
    SuffixOfSuffix(p, base, ext);
  }

  /** A suffix of a string lacking a character lacks it too. */
  lemma SuffixLacks(b: string, e: string, c: char)
    requires c !in b
    requires |e| <= |b| && e == b[|b| - |e|..]
    ensures c !in e
  {
    forall i | 0 <= i < |e|
      ensures e[i] != c
    {
      assert e[i] == b[|b| - |e| + i];
    }
  }

  /** The content-type table, keyed by lower-case extension. */
  const Mime: map<string, string> := map[
    ".html" := "text/html; charset=utf-8",
    ".htm" := "text/html; charset=utf-8",
    ".css" := "text/css; charset=utf-8",
    ".js" := "application/javascript; charset=utf-8",
    ".json" := "application/json; charset=utf-8",
    ".png" := "image/png",
    ".jpg" := "image/jpeg",
    ".jpeg" := "image/jpeg",
    ".gif" := "image/gif",
    ".svg" := "image/svg+xml",
    ".webp" := "image/webp",
    ".ico" := "image/x-icon",
    ".woff" := "font/woff",
    ".woff2" := "font/woff2"
  ]

  const OctetStream: string := "application/octet-stream"

  /** The content type of a served file. */
  function ContentType(p: string): (ctype: string)
    ensures Lower(Extname(p)) in Mime ==> ctype == Mime[Lower(Extname(p))]
    ensures Lower(Extname(p)) !in Mime ==> ctype == OctetStream
  {
    var ext := Lower(Extname(p));
    if ext in Mime then Mime[ext] else OctetStream
  }

  /** A character no letter lower-cases to. */
  predicate NonLetter(c: char) {
    !('A' <= c <= 'Z') && !('a' <= c <= 'z')
  }

  /** Lower-casing keeps every `/` and `.` where it was. */
  lemma {:induction false} LastIndexOfLower(s: string, c: char)
    requires NonLetter(c)
    ensures LastIndexOf(Lower(s), c) == LastIndexOf(s, c)
    decreases |s|
  {
    if |s| > 0 {
      var n := |s| - 1;
      assert Lower(s)[..n] == Lower(s[..n]);
      assert Lower(s)[n] == c <==> s[n] == c;
      LastIndexOfLower(s[..n], c);
    }
  }

  /** Lower-casing commutes with dropping a prefix. */
  lemma LowerDrop(s: string, j: nat)
    requires j <= |s|
    ensures Lower(s)[j..] == Lower(s[j..])
  {
    assert forall i :: 0 <= i < |s| - j ==> Lower(s)[j..][i] == LowerChar(s[j + i]) == Lower(s[j..])[i];
  }

  lemma BasenameLower(p: string)
    ensures Basename(Lower(p)) == Lower(Basename(p))
  {
    LastIndexOfLower(p, '/');
    LowerDrop(p, LastIndexOf(p, '/') + 1);
  }

  lemma ExtOfBaseLower(base: string)
    ensures ExtOfBase(Lower(base)) == Lower(ExtOfBase(base))
  {
    LastIndexOfLower(base, '.');
    var k := LastIndexOf(base, '.');
    if k > 0 {
      assert Lower(base)[k..] == Lower(base[k..]);
    }
    assert base == ".." <==> Lower(base) == ".." by {
      if Lower(base) == ".." {
        assert Lower(base)[0] == '.' && Lower(base)[1] == '.';
        assert base[0] == '.' && base[1] == '.';
        assert base == [base[0], base[1]];
      }
    }
  }

  /** The extension of a lower-cased path is the lower-cased extension. */
  lemma ExtnameLower(p: string)
    ensures Extname(Lower(p)) == Lower(Extname(p))
  {
    BasenameLower(p);
    ExtOfBaseLower(Basename(p));
  }

  /** The content type ignores the case of the path. */
  lemma ContentTypeIgnoresCase(p: string)
    ensures ContentType(Lower(p)) == ContentType(p)
  {
    ExtnameLower(p);
    LowerIdempotent(Extname(p));
  }

  /** `LastIndexOf` is characterised by its contract. */
  lemma LastIndexOfIs(s: string, c: char, k: int)
    requires -1 <= k < |s|
    requires k >= 0 ==> s[k] == c
    requires forall j :: k < j < |s| ==> s[j] != c
    ensures LastIndexOf(s, c) == k
  {
  }

  /** The extension keeps its case. */
  lemma UpperCaseExtension()
    ensures Extname("/srv/site/INDEX.HTML") == ".HTML"
  {
    LastIndexOfIs("/srv/site/INDEX.HTML", '/', 9);
    assert Basename("/srv/site/INDEX.HTML") == "INDEX.HTML";
    LastIndexOfIs("INDEX.HTML", '.', 5);
  }

  /** An upper-case extension is typed like the lower-case one. */
  lemma UpperCaseExtensionTyped()
    ensures ContentType("/srv/site/INDEX.HTML") == "text/html; charset=utf-8"
  {
    UpperCaseExtension();
    LowerDotHtml();
    HtmlInAnyCase("/srv/site/INDEX.HTML");
  }

  /** Any path whose extension lower-cases to `.html` is served as HTML. */
  lemma HtmlInAnyCase(p: string)
    ensures Lower(Extname(p)) == ".html" ==> ContentType(p) == "text/html; charset=utf-8"
  {
    HtmlEntry();
  }

  lemma HtmlEntry()
    ensures ".html" in Mime && Mime[".html"] == "text/html; charset=utf-8"
  {
  }

  lemma LowerDotHtml()
    ensures Lower(".HTML") == ".html"
  {
    var l := Lower(".HTML");
    assert l[0] == '.' && l[1] == 'h' && l[2] == 't' && l[3] == 'm' && l[4] == 'l';
  }

  /** A name whose only dot starts it has no extension. */
  lemma DotFileUntyped()
    ensures ContentType("/srv/site/.bashrc") == OctetStream
  {
    LastIndexOfIs("/srv/site/.bashrc", '/', 9);
    assert Basename("/srv/site/.bashrc") == ".bashrc";
    LastIndexOfIs(".bashrc", '.', 0);
    assert Extname("/srv/site/.bashrc") == "";
    UntypedWithoutExtension("/srv/site/.bashrc");
  }

  /** A name without a dot has no extension. */
  lemma NoExtensionUntyped()
    ensures ContentType("/srv/site/README") == OctetStream
  {
    LastIndexOfIs("/srv/site/README", '/', 9);
    assert Basename("/srv/site/README") == "README";
    LastIndexOfIs("README", '.', -1);
    assert Extname("/srv/site/README") == "";
    UntypedWithoutExtension("/srv/site/README");
  }

  /** A path without an extension is served as an octet stream. */
  lemma UntypedWithoutExtension(p: string)
    requires Extname(p) == ""
    ensures ContentType(p) == OctetStream
  {
    assert Lower(Extname(p)) == "";
    NoEmptyEntry();
  }

  lemma NoEmptyEntry()
    ensures "" !in Mime
  {
  }

  /** What the file system holds at a resolved path. */
  datatype Entry = File | Directory

  /** The response body: nothing, a short text message, or a file's bytes
      streamed from the given path. */
  datatype Body = NoBody | Message(text: string) | Stream(path: string)

  datatype Response = Response(status: nat, contentType: Option<string>, body: Body)

  const TextPlain: string := "text/plain; charset=utf-8"

  /** What the server does with a resolved path that passed the
      containment check: `fs.stat` it, fall back to a directory's
      `index.html`, and type a file by its extension. */
  function Serve(verb: string, full: string, files: map<string, Entry>): (r: Response)
    requires MethodAllowed(verb)
    ensures r.status == 200 || r.status == 404
    // 404 exactly when neither the path nor, for a directory, its index exists
    ensures r.status == 404 <==>
      full !in files || (files[full] == Directory && IndexOf(full) !in files)
    // a file is answered with its own content type; HEAD sends its headers only
    ensures full in files && files[full] == File ==>
      r.contentType == Some(ContentType(full))
      && (r.body == NoBody <==> verb == "HEAD")
      && (r.body != NoBody ==> r.body == Stream(full))
    // a directory is answered with its index file, streamed even for HEAD
    ensures r.status == 200 && files[full] == Directory ==>
      r.contentType.None? && r.body == Stream(IndexOf(full))
    ensures r.body.Stream? ==>
      r.body.path in files && (r.body.path == full || r.body.path == IndexOf(full))
  {
    if full !in files then Response(404, Some(TextPlain), Message("Not Found"))
    else match files[full]
      case Directory =>
        if IndexOf(full) !in files then Response(404, Some(TextPlain), Message("Not Found"))
        else Response(200, None, Stream(IndexOf(full)))
      case File =>
        if verb == "HEAD" then Response(200, Some(ContentType(full)), NoBody)
        else Response(200, Some(ContentType(full)), Stream(full))
  }

  const MethodNotAllowed: Response := Response(405, Some(TextPlain), Message("Method Not Allowed"))
  const Forbidden: Response := Response(403, Some(TextPlain), Message("Forbidden"))

  /** The server's answer to one request with the corrected containment
      check. `resolve` stands for `path.resolve(path.join(dir, rel))` and
      `files` for what `fs.stat` finds. */
  function Handle(dir: string, verb: string, pathname: string,
                  resolve: string -> string, files: map<string, Entry>): (r: Response)
    ensures !MethodAllowed(verb) ==> r == MethodNotAllowed
    ensures MethodAllowed(verb) ==>
      (r.status == 403 <==> !Within(dir, resolve(RelativePath(pathname))))
    // an allowed request for a contained path gets the file-system answer
    ensures MethodAllowed(verb) && Within(dir, resolve(RelativePath(pathname))) ==>
      r == Serve(verb, resolve(RelativePath(pathname)), files)
    // whatever is streamed lies inside the served directory and exists
    ensures r.body.Stream? ==> Within(dir, r.body.path) && r.body.path in files
    ensures r.status in {200, 403, 404, 405}
  {
    if !MethodAllowed(verb) then MethodNotAllowed
    else
      var full := resolve(RelativePath(pathname));
      if !Within(dir, full) then Forbidden
      else
        IndexStaysWithin(dir, full);
        Serve(verb, full, files)
  }

  /** The handler as written: the same steps behind the plain prefix check. */
  function HandleAsWritten(dir: string, verb: string, pathname: string,
                           resolve: string -> string, files: map<string, Entry>): (r: Response)
    ensures !MethodAllowed(verb) ==> r == MethodNotAllowed
    ensures MethodAllowed(verb) ==>
      (r.status == 403 <==> !ContainedAsWritten(dir, resolve(RelativePath(pathname))))
    // an allowed request for a path passing the prefix test gets the file-system answer
    ensures MethodAllowed(verb) && ContainedAsWritten(dir, resolve(RelativePath(pathname))) ==>
      r == Serve(verb, resolve(RelativePath(pathname)), files)
    ensures r.body.Stream? ==> ContainedAsWritten(dir, r.body.path) && r.body.path in files
  {
    if !MethodAllowed(verb) then MethodNotAllowed
    else
      var full := resolve(RelativePath(pathname));
      if !ContainedAsWritten(dir, full) then Forbidden
      else
        assert IndexOf(full)[..|dir|] == full[..|dir|];
        Serve(verb, full, files)
  }

  /** A directory's index file lies inside the served directory when the
      directory does. */
  lemma IndexStaysWithin(dir: string, full: string)
    requires Within(dir, full)
    ensures Within(dir, IndexOf(full))
  {
    var w := WithSlash(dir);
    if full == dir {
      assert IndexOf(full)[..|w|] == w;
    } else {
      assert full[..|w|] == w;
      assert WithSlash(full)[..|w|] == w;
      assert IndexOf(full)[..|w|] == w;
    }
  }

  /** The two handlers differ only where the prefix check lets through a
      path the corrected check refuses; there the corrected one answers 403. */
  lemma HandlersAgreeInside(dir: string, verb: string, pathname: string,
                            resolve: string -> string, files: map<string, Entry>)
    requires dir != "" && dir[|dir| - 1] != '/'
    ensures Within(dir, resolve(RelativePath(pathname))) ==>
      Handle(dir, verb, pathname, resolve, files) == HandleAsWritten(dir, verb, pathname, resolve, files)
    // inside, both give the file system's answer
    ensures MethodAllowed(verb) && Within(dir, resolve(RelativePath(pathname))) ==>
      Handle(dir, verb, pathname, resolve, files) == Serve(verb, resolve(RelativePath(pathname)), files)
    ensures MethodAllowed(verb) && !Within(dir, resolve(RelativePath(pathname))) ==>
      Handle(dir, verb, pathname, resolve, files) == Forbidden
  {
    WithinIsPathContainment(dir, "", "x");
  }

  /** Serving `/srv/site`, a GET of `/../site-private/key` (a pathname the
      legacy URL parser leaves with its dot segments) resolves to a file in
      the sibling directory `/srv/site-private`: the handler as written
      streams it, the corrected one refuses it. */
  lemma SiblingFileServedAsWritten()
    ensures var resolve := (rel: string) => "/srv/site-private/key";
      var files := map["/srv/site-private/key" := File];
      && RelativePath("/../site-private/key") == "../site-private/key"
      && HandleAsWritten("/srv/site", "GET", "/../site-private/key", resolve, files).body == Stream("/srv/site-private/key")
      && Handle("/srv/site", "GET", "/../site-private/key", resolve, files) == Forbidden
  {
    PrefixCheckAdmitsSibling();
    assert StartsWith("/../site-private/key", "/");
  }
}
