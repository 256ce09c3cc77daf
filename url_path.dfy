/** `Path(urlparse(url).path).suffix or '.zip'`: the file extension a download
    gets, taken from the last component of the URL's path. */
module UrlPath {
  import opened Text

  /** Index of the first `c` in `s`, or `|s|` when there is none. */
  function IndexOf(s: string, c: char): (i: nat)
    ensures i <= |s|
    ensures i < |s| ==> s[i] == c
    ensures forall j :: 0 <= j < i ==> s[j] != c
    decreases |s|
  {
    if s == [] || s[0] == c then 0 else 1 + IndexOf(s[1..], c)
  }

  /** The part of `s` before its first `c`. */
  function BeforeFirst(s: string, c: char): (r: string)
    ensures |r| <= |s| && r == s[..|r|] && c !in r
    ensures |r| < |s| ==> s[|r|] == c
  {
    s[..IndexOf(s, c)]
  }

  /** Index just after the last `c` in `s`, or 0 when there is none. */
  function AfterLast(s: string, c: char): (i: nat)
    ensures i <= |s|
    ensures i > 0 ==> s[i - 1] == c
    ensures forall j :: i <= j < |s| ==> s[j] != c
    decreases |s|
  {
    if s == [] then 0
    else if s[|s| - 1] == c then |s|
    else AfterLast(s[..|s| - 1], c)
  }

  /** A URL scheme: an ASCII letter, then letters, digits, `+`, `-` or `.`. */
  predicate IsScheme(s: string) {
    && s != []
    && ('a' <= s[0] <= 'z' || 'A' <= s[0] <= 'Z')
    && forall j :: 0 <= j < |s| ==> (IsWordChar(s[j]) && s[j] != '_') || s[j] == '+' || s[j] == '-' || s[j] == '.'
  }

  /** `urlparse(url).path`: the URL without its fragment (`#`), query (`?`),
      `scheme://host` part and the `;parameters` of its last segment. */
  function PathOf(url: string): string {
    WithoutParams(AfterHost(AfterScheme(WithoutQuery(url))))
  }

  /** The URL without its fragment and then without its query. */
  function WithoutQuery(url: string): string {
    BeforeFirst(BeforeFirst(url, '#'), '?')
  }

  /** What follows `scheme:`, or all of `s` when it does not start with a scheme. */
  function AfterScheme(s: string): string {
    var k := IndexOf(s, ':');
    if k < |s| && IsScheme(s[..k]) then s[k + 1..] else s
  }

  /** What follows `//host`, or all of `s` when it does not start with `//`. */
  function AfterHost(s: string): string {
    if StartsWith(s, "//") then s[2..][IndexOf(s[2..], '/')..] else s
  }

  /** The path without the `;parameters` of its last segment. */
  function WithoutParams(path: string): string {
    var a := AfterLast(path, '/');
    path[..a + IndexOf(path[a..], ';')]
  }

  /** `s` without its trailing slashes. */
  function TrimSlashes(s: string): (r: string)
    ensures |r| <= |s| && r == s[..|r|]
    ensures r == [] || r[|r| - 1] != '/'
    decreases |s|
  {
    if s != [] && s[|s| - 1] == '/' then TrimSlashes(s[..|s| - 1]) else s
  }

  /** `s` holds nothing but slashes and `.` components: what `PurePath` drops
      after the last name. */
  predicate DotsAndSlashes(s: string) {
    forall j :: 0 <= j < |s| ==>
      s[j] == '/' || (s[j] == '.' && (j == 0 || s[j - 1] == '/') && (j + 1 == |s| || s[j + 1] == '/'))
  }

  /** Where the last component of `path` that is neither empty nor `.` ends. */
  function NameEnd(path: string): (e: nat)
    ensures e <= |path|
    decreases |path|
  {
    var t := TrimSlashes(path);
    var a := AfterLast(t, '/');
    if t[a..] == "." then NameEnd(t[..a]) else |t|
  }

  /** `e` ends a component of `path` that is neither empty nor `.`, or is 0. */
  predicate EndsName(path: string, e: nat)
    requires e <= |path|
  {
    && (e == 0 || e == |path| || path[e] == '/')
    && (e == 0 || path[e - 1] != '/')
    && (e == 0 || path[AfterLast(path[..e], '/')..e] != ".")
  }

  /** What `NameEnd` leaves behind is slashes and `.` components, and what it
      ends is a component, neither empty nor `.`. */
  lemma {:induction false} NameEndShape(path: string)
    ensures EndsName(path, NameEnd(path)) && DotsAndSlashes(path[NameEnd(path)..])
    decreases |path|
  {
    var t := TrimSlashes(path);
    var a := AfterLast(t, '/');
    TrimmedTail(path);
    if t[a..] == "." {
      var p := t[..a];
      assert t == p + ".";
      assert a > 0 ==> p[a - 1] == '/';
      NameEndShape(p);
      DotComponentSkipped(path, t, p, NameEnd(p));
    } else {
      assert path[..|t|] == t;
    }
  }

  /** Dropping a last `.` component keeps what was proved about the text
      before it. */
  lemma DotComponentSkipped(path: string, t: string, p: string, e: nat)
    requires |t| <= |path| && t == path[..|t|]
    requires forall j :: |t| <= j < |path| ==> path[j] == '/'
    requires t == p + "." && (p == [] || p[|p| - 1] == '/')
    requires e <= |p| && EndsName(p, e) && DotsAndSlashes(p[e..])
    ensures EndsName(path, e) && DotsAndSlashes(path[e..])
  {
    assert e < |p| || e == 0;
    assert p == path[..|p|];
    EndsNameInPrefix(path, |p|, e);
    assert path == p + "." + path[|t|..];
    assert path[e..] == p[e..] + "." + path[|t|..];
    DotsAndSlashesExtend(p[e..], path[|t|..]);
  }

  /** A component end found in a prefix stays one in the whole text, unless it
      is the end of that prefix. */
  lemma EndsNameInPrefix(path: string, n: nat, e: nat)
    requires e <= n <= |path| && (e < n || e == 0)
    requires EndsName(path[..n], e)
    ensures EndsName(path, e)
  {
    if e > 0 {
      var p := path[..n];
      assert path[e - 1] == p[e - 1] && path[e] == p[e];
      assert path[..e] == p[..e];
      assert path[AfterLast(path[..e], '/')..e] == p[AfterLast(p[..e], '/')..e];
    }
  }

  /** A `.` component after a run of slashes and `.` components, followed by
      slashes, keeps the shape. */
  lemma DotsAndSlashesExtend(x: string, s: string)
    requires DotsAndSlashes(x) && (x == [] || x[|x| - 1] == '/')
    requires forall j :: 0 <= j < |s| ==> s[j] == '/'
    ensures DotsAndSlashes(x + "." + s)
  {
    var u := x + "." + s;
    forall j | 0 <= j < |u|
      ensures u[j] == '/' || (u[j] == '.' && (j == 0 || u[j - 1] == '/') && (j + 1 == |u| || u[j + 1] == '/'))
    {
      if j < |x| {
        assert u[j] == x[j];
        assert x[j] == '/' || (x[j] == '.' && (j == 0 || x[j - 1] == '/') && (j + 1 == |x| || x[j + 1] == '/'));
        if j > 0 { assert u[j - 1] == x[j - 1]; }
        if j + 1 < |x| { assert u[j + 1] == x[j + 1]; }
      } else if j > |x| {
        assert u[j] == s[j - |x| - 1];
      } else {
        assert u[j] == '.';
        if j > 0 { assert u[j - 1] == x[|x| - 1]; }
        if j + 1 < |u| { assert u[j + 1] == s[0]; }
      }
    }
  }

  /** Every character `TrimSlashes` drops is a slash. */
  lemma {:induction false} TrimmedTail(s: string)
    ensures forall j :: |TrimSlashes(s)| <= j < |s| ==> s[j] == '/'
    decreases |s|
  {
    if s != [] && s[|s| - 1] == '/' {
      TrimmedTail(s[..|s| - 1]);
    }
  }

  /** The text after the last slash of `path[..e]` is a slash-free part of
      `path` that starts after a slash or at the start, and is empty only for
      `e == 0` when `e` ends a component. */
  lemma LastSegment(path: string, e: nat)
    requires e <= |path|
    ensures var a := AfterLast(path[..e], '/');
      && a <= e
      && '/' !in path[a..e]
      && (a == 0 || path[a - 1] == '/')
      && (e > 0 && path[e - 1] != '/' ==> a < e)
  {
    var t := path[..e];
    var a := AfterLast(t, '/');
    assert path[a..e] == t[a..];
    assert a > 0 ==> path[a - 1] == t[a - 1];
    assert e > 0 ==> t[e - 1] == path[e - 1];
  }

  /** `Path(path).name`: the last component that is neither empty nor `.`, or
      the empty string when there is none. */
  function FinalName(path: string): (name: string)
    ensures '/' !in name && name != "."
    ensures |name| <= NameEnd(path)
    ensures name == path[NameEnd(path) - |name|..NameEnd(path)]
    ensures NameEnd(path) - |name| == 0 || path[NameEnd(path) - |name| - 1] == '/'
    ensures DotsAndSlashes(path[NameEnd(path)..])
    ensures name == [] ==> DotsAndSlashes(path)
  {
    NameEndShape(path);
    var e := NameEnd(path);
    LastSegment(path, e);
    path[AfterLast(path[..e], '/')..e]
  }

  /** `PurePath.suffix` of a file name: from its last dot on, when that dot is
      neither the first nor the last character; otherwise empty. */
  function Suffix(name: string): (r: string)
  {
    var i := AfterLast(name, '.');
    if 1 < i < |name| then name[i - 1..] else ""
  }

  /** The extension of the file fetched from `url`: the path's suffix, or `.zip`. */
  function Extension(url: string): string {
    SuffixOrZip(FinalName(PathOf(url)))
  }

  /** The suffix of a file name, or `.zip` when it has none. */
  function SuffixOrZip(name: string): string {
    var s := Suffix(name);
    if s == "" then ".zip" else s
  }

  /** A suffix is a dot followed by at least one character and no further dot,
      and it ends the name without being all of it. */
  lemma SuffixShape(name: string)
    ensures var r := Suffix(name);
      r == "" || (|r| >= 2 && r[0] == '.' && '.' !in r[1..] && |r| < |name| && r == name[|name| - |r|..])
  {
  }

  /** A name whose last dot starts it, ends it or is absent has no suffix. */
  lemma NoSuffixWithoutInnerDot(name: string)
    requires forall j :: 0 < j < |name| - 1 ==> name[j] != '.'
    ensures Suffix(name) == ""
  {
  }

  /** A name `stem.ext` with a non-empty stem and a dot-free, non-empty `ext`
      has the suffix `.ext`. */
  lemma SuffixOfDottedName(stem: string, ext: string)
    requires stem != "" && ext != "" && '.' !in ext
    ensures Suffix(stem + "." + ext) == "." + ext
  {
    var name := stem + "." + ext;
    assert name[|stem|] == '.';
    forall j | |stem| < j < |name| ensures name[j] != '.' {
      assert name[j] == ext[j - |stem| - 1];
    }
    var i := AfterLast(name, '.');
    assert i == |stem| + 1;
    assert name[i - 1..] == "." + ext;
  }

  /** A suffix of a slash-free name holds no slash. */
  lemma SuffixHasNoSlash(name: string)
    requires '/' !in name
    ensures '/' !in Suffix(name)
  {
    var s := Suffix(name);
    SuffixShape(name);
    forall j | 0 <= j < |s| ensures s[j] != '/' {
      assert s[j] == name[|name| - |s| + j];
    }
  }

  /** The extension starts with a dot, holds no other dot and no slash, so the
      target file stays in the download directory. */
  lemma ExtensionShape(url: string)
    ensures var e := Extension(url);
      |e| >= 2 && e[0] == '.' && '.' !in e[1..] && '/' !in e
  {
    var name := FinalName(PathOf(url));
    SuffixOrZipShape(name);
  }

  /** The shape `ExtensionShape` states, for any slash-free name. */
  lemma SuffixOrZipShape(name: string)
    requires '/' !in name
    ensures var e := SuffixOrZip(name);
      |e| >= 2 && e[0] == '.' && '.' !in e[1..] && '/' !in e
  {
    SuffixShape(name);
    SuffixHasNoSlash(name);
    assert ".zip"[1..] == "zip";
  }

  /** Past a prefix without `c`, the first `c` is the first one of the rest. */
  lemma {:induction false} IndexOfAfter(a: string, b: string, c: char)
    requires c !in a
    ensures IndexOf(a + b, c) == |a| + IndexOf(b, c)
    decreases |a|
  {
    if a == [] {
      assert a + b == b;
    } else {
      assert (a + b)[1..] == a[1..] + b;
      IndexOfAfter(a[1..], b, c);
    }
  }

  /** The last `c` of `a + [c] + b`, when `b` holds none, is the one between. */
  lemma {:induction false} AfterLastBefore(a: string, b: string, c: char)
    requires c !in b
    ensures AfterLast(a + [c] + b, c) == |a| + 1
    decreases |b|
  {
    var s := a + [c] + b;
    if b != [] {
      assert s[|s| - 1] == b[|b| - 1];
      assert s[..|s| - 1] == a + [c] + b[..|b| - 1];
      AfterLastBefore(a, b[..|b| - 1], c);
    }
  }

  /** No character of a scheme ends it or starts a query, fragment or path. */
  lemma SchemeChars(scheme: string)
    requires IsScheme(scheme)
    ensures ':' !in scheme && '?' !in scheme && '#' !in scheme && '/' !in scheme
  {
    forall j | 0 <= j < |scheme| ensures scheme[j] !in ":?#/" {
      assert (IsWordChar(scheme[j]) && scheme[j] != '_') || scheme[j] in "+-.";
    }
  }

  /** `urlparse` of `scheme://host<local>`, where `local` starts with a slash
      and holds no query, fragment or parameters, has the path `local`. */
  lemma PathOfPlainUrl(scheme: string, host: string, local: string)
    requires IsScheme(scheme)
    requires '/' !in host && '?' !in host && '#' !in host
    requires local != [] && local[0] == '/' && '?' !in local && '#' !in local
    requires ';' !in local[AfterLast(local, '/')..]
    ensures PathOf(scheme + (":" + ("//" + host + local))) == local
  {
    var hier := "//" + host + local;
    var url := scheme + (":" + hier);
    assert WithoutQuery(url) == url by { PlainUrlChars(scheme, hier); }
    assert AfterScheme(url) == hier by { AfterSchemeOf(scheme, hier); }
    assert AfterHost(hier) == local by { AfterHostOf(host, local); }
    assert WithoutParams(local) == local by { WithoutParamsOf(local); }
    PathOfStages(url, hier, local);
  }

  /** `PathOf` in terms of its stages. */
  lemma PathOfStages(url: string, hier: string, local: string)
    requires WithoutQuery(url) == url && AfterScheme(url) == hier
    requires AfterHost(hier) == local && WithoutParams(local) == local
    ensures PathOf(url) == local
  {
  }

  /** A scheme and a colon followed by text without `?` or `#` have none. */
  lemma PlainUrlChars(scheme: string, rest: string)
    requires IsScheme(scheme) && '?' !in rest && '#' !in rest
    ensures WithoutQuery(scheme + (":" + rest)) == scheme + (":" + rest)
  {
    SchemeChars(scheme);
  }

  /** `WithoutParams` keeps a path whose last segment has no `;`. */
  lemma WithoutParamsOf(path: string)
    requires ';' !in path[AfterLast(path, '/')..]
    ensures WithoutParams(path) == path
  {
    assert path[..|path|] == path;
  }

  /** `AfterScheme` drops a scheme and its colon. */
  lemma AfterSchemeOf(scheme: string, rest: string)
    requires IsScheme(scheme)
    ensures AfterScheme(scheme + (":" + rest)) == rest
  {
    var s := scheme + (":" + rest);
    SchemeChars(scheme);
    IndexOfAfter(scheme, ":" + rest, ':');
    assert IndexOf(":" + rest, ':') == 0;
    assert s[..|scheme|] == scheme && s[|scheme| + 1..] == rest;
  }

  /** `AfterHost` drops `//` and a host without slashes. */
  lemma AfterHostOf(host: string, local: string)
    requires '/' !in host && local != [] && local[0] == '/'
    ensures AfterHost("//" + host + local) == local
  {
    var s := "//" + host + local;
    assert StartsWith(s, "//");
    assert s[2..] == host + local;
    IndexOfAfter(host, local, '/');
    assert IndexOf(local, '/') == 0;
    assert (host + local)[|host|..] == local;
  }

  /** A path ending in a name that is neither empty nor `.` has that name as its
      final component. */
  lemma FinalNameOfLast(dirs: string, name: string)
    requires name != "" && name != "." && '/' !in name
    ensures FinalName(dirs + "/" + name) == name
  {
    var local := dirs + "/" + name;
    AfterLastBefore(dirs, name, '/');
    assert local[|dirs| + 1..] == name;
    assert TrimSlashes(local) == local;
    assert NameEnd(local) == |local|;
    assert local[..|local|] == local;
  }

  /** A URL `scheme://host<dirs>/stem.ext`, `<dirs>` empty or starting with a
      slash, without query, fragment or parameters: its file extension is `.ext`. */
  lemma ExtensionOfPlainUrl(scheme: string, host: string, dirs: string, stem: string, ext: string)
    requires IsScheme(scheme)
    requires '/' !in host && '?' !in host && '#' !in host
    requires dirs == "" || dirs[0] == '/'
    requires '?' !in dirs && '#' !in dirs
    requires stem != "" && '/' !in stem && '?' !in stem && '#' !in stem && ';' !in stem
    requires ext != "" && '/' !in ext && '?' !in ext && '#' !in ext && ';' !in ext && '.' !in ext
    ensures Extension(scheme + "://" + host + dirs + "/" + stem + "." + ext) == "." + ext
  {
    var name := stem + "." + ext;
    var local := dirs + "/" + name;
    PlainUrlParts(scheme, host, dirs, stem, ext);
    assert '/' !in name && ';' !in name;
    AfterLastBefore(dirs, name, '/');
    assert local[|dirs| + 1..] == name;
    assert local[0] == '/' && '?' !in local && '#' !in local;
    PathOfPlainUrl(scheme, host, local);
    FinalNameOfLast(dirs, name);
    SuffixOfDottedName(stem, ext);
  }

  /** The URL of `ExtensionOfPlainUrl`, grouped as `urlparse` takes it apart. */
  lemma PlainUrlParts(scheme: string, host: string, dirs: string, stem: string, ext: string)
    ensures scheme + "://" + host + dirs + "/" + stem + "." + ext
      == scheme + (":" + ("//" + host + (dirs + "/" + (stem + "." + ext))))
  {
  }
}
