/** A model of the Unix behaviour of Go's `path/filepath` functions that dr-get-dicom calls:
    Clean, Dir, Base, Ext and Join. Paths are strings; Clean is the lexical normalisation that
    drops empty and "." elements and lets ".." remove the element before it. */
module Paths {
  import opened Text

  /** An element that Clean keeps as it is: not empty, not "." or "..", and without a slash. */
  predicate IsName(e: string) {
    e != "" && e != "." && e != ".." && '/' !in e
  }

  predicate IsRooted(s: string) {
    |s| > 0 && s[0] == '/'
  }

  /** The lexical state of a cleaned path: whether it starts at the root, how many leading ".."
      elements it keeps (only for relative paths) and the names after them. */
  datatype Lexical = Lexical(rooted: bool, ups: nat, names: seq<string>)

  predicate Canonical(p: Lexical) {
    (p.rooted ==> p.ups == 0) && forall k :: 0 <= k < |p.names| ==> IsName(p.names[k])
  }

  /** Clean's treatment of one element. */
  function Step(p: Lexical, e: string): Lexical {
    if e == "" || e == "." then p
    else if e == ".." then
      if |p.names| > 0 then p.(names := p.names[..|p.names| - 1])
      else if p.rooted then p
      else p.(ups := p.ups + 1)
    else p.(names := p.names + [e])
  }

  function Scan(p: Lexical, es: seq<string>): Lexical
    decreases |es|
  {
    if es == [] then p else Step(Scan(p, es[..|es| - 1]), es[|es| - 1])
  }

  function Lex(s: string): Lexical {
    Scan(Lexical(IsRooted(s), 0, []), Split(s, '/'))
  }

  function Ups(n: nat): (u: seq<string>)
    ensures |u| == n && forall k :: 0 <= k < n ==> u[k] == ".."
  {
    seq(n, _ => "..")
  }

  function Parts(p: Lexical): seq<string> {
    Ups(p.ups) + p.names
  }

  function Render(p: Lexical): string {
    if p.rooted then "/" + JoinWith(Parts(p), "/")
    else if Parts(p) == [] then "."
    else JoinWith(Parts(p), "/")
  }

  /** filepath.Clean */
  function Clean(s: string): string {
    Render(Lex(s))
  }

  /** filepath.Dir: everything up to the last slash, cleaned. */
  function Dir(s: string): string {
    Clean(s[..LastIndexOf(s, '/') + 1])
  }

  function TrimTrailingSlashes(s: string): (t: string)
    ensures |t| <= |s| && t == s[..|t|]
    ensures t == "" || t[|t| - 1] != '/'
  {
    if s != "" && s[|s| - 1] == '/' then TrimTrailingSlashes(s[..|s| - 1]) else s
  }

  /** filepath.Base: the last element after trailing slashes are removed. */
  function Base(s: string): (b: string)
    ensures b != "" && (b == "/" || '/' !in b)
  {
    if s == "" then "."
    else
      var t := TrimTrailingSlashes(s);
      var u := t[LastIndexOf(t, '/') + 1..];
      if u == "" then "/" else u
  }

  /** A possible result of Ext: a dot followed by characters that are neither dots nor slashes. */
  predicate IsExtension(e: string) {
    |e| >= 1 && e[0] == '.' && forall j :: 1 <= j < |e| ==> e[j] != '.' && e[j] != '/'
  }

  /** filepath.Ext: the suffix starting at the last dot of the last element, or "". */
  function Ext(s: string): (e: string)
    ensures HasSuffix(s, e)
    ensures e != "" ==> IsExtension(e)
    ensures e == "" ==> forall j :: LastIndexOf(s, '/') < j < |s| ==> s[j] != '.'
  {
    if s == "" || s[|s| - 1] == '/' then ""
    else if s[|s| - 1] == '.' then "."
    else
      var e := Ext(s[..|s| - 1]);
      if e == "" then "" else e + [s[|s| - 1]]
  }

  /** filepath.Join: the elements from the first non-empty one on, separated by slashes and
      cleaned; "" when every element is empty. */
  function Join(elems: seq<string>): (p: string)
    decreases |elems|
  {
    if elems == [] then ""
    else if elems[0] == "" then Join(elems[1..])
    else Clean(JoinWith(elems, "/"))
  }

  // ---- Clean ----

  lemma {:induction false} ScanAppend(p: Lexical, xs: seq<string>, ys: seq<string>)
    ensures Scan(p, xs + ys) == Scan(Scan(p, xs), ys)
    decreases |ys|
  {
    if ys == [] {
      assert xs + ys == xs;
    } else {
      assert (xs + ys)[..|xs + ys| - 1] == xs + ys[..|ys| - 1];
      ScanAppend(p, xs, ys[..|ys| - 1]);
    }
  }

  /** Names are appended as they are. */
  lemma {:induction false} ScanNames(p: Lexical, ns: seq<string>)
    requires forall k :: 0 <= k < |ns| ==> IsName(ns[k])
    ensures Scan(p, ns) == p.(names := p.names + ns)
    decreases |ns|
  {
    if ns == [] {
      assert p.names + ns == p.names;
    } else {
      var init := ns[..|ns| - 1];
      ScanNames(p, init);
      assert p.names + init + [ns[|ns| - 1]] == p.names + ns;
    }
  }

  /** Leading ".." elements of a relative path are counted. */
  lemma {:induction false} ScanUps(n: nat)
    ensures Scan(Lexical(false, 0, []), Ups(n)) == Lexical(false, n, [])
  {
    if n > 0 {
      assert Ups(n)[..n - 1] == Ups(n - 1);
      ScanUps(n - 1);
    }
  }

  lemma {:induction false} ScanCanonical(p: Lexical, es: seq<string>)
    requires Canonical(p)
    requires forall k :: 0 <= k < |es| ==> '/' !in es[k]
    ensures Canonical(Scan(p, es))
    decreases |es|
  {
    if es != [] {
      ScanCanonical(p, es[..|es| - 1]);
    }
  }

  lemma LexCanonical(s: string)
    ensures Canonical(Lex(s))
  {
    ScanCanonical(Lexical(IsRooted(s), 0, []), Split(s, '/'));
  }

  lemma {:induction false} JoinWithStart(parts: seq<string>)
    requires |parts| > 0 && parts[0] != ""
    ensures |JoinWith(parts, "/")| > 0 && JoinWith(parts, "/")[0] == parts[0][0]
    decreases |parts|
  {
    if |parts| > 1 {
      JoinWithStart(parts[..|parts| - 1]);
    }
  }

  lemma PartsShape(p: Lexical)
    requires Canonical(p)
    ensures forall k :: 0 <= k < |Parts(p)| ==> Parts(p)[k] != "" && '/' !in Parts(p)[k]
  {
  }

  /** Clean never returns the empty string. */
  lemma RenderNotEmpty(p: Lexical)
    requires Canonical(p)
    ensures Render(p) != ""
    ensures !p.rooted && Parts(p) != [] ==> !IsRooted(Render(p))
  {
    if !p.rooted && Parts(p) != [] {
      PartsShape(p);
      JoinWithStart(Parts(p));
    }
  }

  /** Rendering a cleaned path and reading it back gives the same lexical state. */
  lemma LexRender(p: Lexical)
    requires Canonical(p)
    ensures Lex(Render(p)) == p
  {
    var init := Lexical(false, 0, []);
    var parts := Parts(p);
    PartsShape(p);
    if p.rooted {
      var j := JoinWith(parts, "/");
      assert Render(p) == "" + ['/'] + j;
      SplitConcat("", j, '/');
      assert Split("", '/') == [""];
      var root := Lexical(true, 0, []);
      if parts == [] {
        assert Split(j, '/') == [""];
        assert Split(Render(p), '/') == ["", ""];
        assert Scan(root, ["", ""]) == root;
      } else {
        SplitJoinWith(parts, '/');
        assert parts == p.names;
        ScanAppend(root, [""], p.names);
        ScanNames(root, p.names);
      }
    } else if parts == [] {
      assert Split(".", '/') == ["."];
      assert Scan(init, ["."]) == init;
    } else {
      RenderNotEmpty(p);
      SplitJoinWith(parts, '/');
      ScanAppend(init, Ups(p.ups), p.names);
      ScanUps(p.ups);
      ScanNames(Lexical(false, p.ups, []), p.names);
    }
  }

  lemma CleanNotEmpty(s: string)
    ensures Clean(s) != ""
  {
    LexCanonical(s);
    RenderNotEmpty(Lex(s));
  }

  /** Clean is idempotent. */
  lemma CleanIdempotent(s: string)
    ensures Clean(Clean(s)) == Clean(s)
  {
    LexCanonical(s);
    LexRender(Lex(s));
  }

  /** A trailing slash does not change the cleaned path. */
  lemma CleanTrailingSlash(x: string)
    requires x != ""
    ensures Clean(x + "/") == Clean(x)
  {
    assert x + "/" == x + ['/'] + "";
    SplitConcat(x, "", '/');
    assert Split("", '/') == [""];
    assert IsRooted(x + "/") == IsRooted(x);
    var es := Split(x, '/') + [""];
    assert es[..|es| - 1] == Split(x, '/');
  }

  // ---- Dir, Base and Join ----

  lemma NameHasNoSlash(b: string)
    requires b != "" && '/' !in b
    ensures LastIndexOf(b, '/') == -1
  {
  }

  /** The last element of a path that ends in a name. */
  lemma DirBaseOfName(x: string, b: string)
    requires b != "" && '/' !in b
    ensures Base(x + "/" + b) == b && Dir(x + "/" + b) == Clean(x + "/")
    ensures Base(b) == b && Dir(b) == "."
  {
    var s := x + "/" + b;
    forall m | |x| < m < |s| ensures s[m] != '/' {
      assert s[m] == b[m - |x| - 1];
    }
    LastIndexOfIs(s, '/', |x|);
    assert s[|s| - 1] == b[|b| - 1];
    assert TrimTrailingSlashes(s) == s;
    assert s[|x| + 1..] == b;
    assert s[..|x| + 1] == x + "/";
    NameHasNoSlash(b);
    assert b[..0] == "";
    assert Split("", '/') == [""];
  }

  lemma LexAppendName(a: string, b: string)
    requires a != "" && IsName(b)
    ensures Lex(a + "/" + b) == Lex(a).(names := Lex(a).names + [b])
  {
    assert a + "/" + b == a + ['/'] + b;
    SplitConcat(a, b, '/');
    NameHasNoSlash(b);
    assert IsRooted(a + "/" + b) == IsRooted(a);
    var es := Split(a, '/') + [b];
    assert es[..|es| - 1] == Split(a, '/');
  }

  /** A name on its own is already clean. */
  lemma CleanName(b: string)
    requires IsName(b)
    ensures Lex(b) == Lexical(false, 0, [b])
    ensures Clean(b) == b
  {
    NameHasNoSlash(b);
    assert Split(b, '/') == [b];
    assert !IsRooted(b) by { assert b[0] in b; }
    var init := Lexical(false, 0, []);
    assert [b][..0] == [];
    assert Scan(init, [b]) == Step(init, b);
    assert Step(init, b) == Lexical(false, 0, [] + [b]);
    assert Parts(Lex(b)) == [b];
  }

  lemma CleanRoot()
    ensures Clean("/") == "/"
  {
    assert "/" == "" + ['/'] + "";
    SplitConcat("", "", '/');
    assert Split("", '/') == [""];
    var root := Lexical(true, 0, []);
    assert Scan(root, ["", ""]) == root;
  }

  lemma CleanEmpty()
    ensures Clean("") == "."
  {
    assert Split("", '/') == [""];
  }

  /** The rendering of a cleaned path with one more name. */
  lemma RenderAppendName(p: Lexical, b: string)
    requires Canonical(p) && IsName(b)
    ensures var r := Render(p.(names := p.names + [b]));
      if Parts(p) == [] then r == (if p.rooted then "/" + b else b)
      else r == Render(p) + "/" + b
  {
    var q := p.(names := p.names + [b]);
    assert Parts(q) == Parts(p) + [b];
    assert Parts(q)[..|Parts(q)| - 1] == Parts(p);
    if Parts(p) == [] {
      assert Parts(q) == [b];
    }
  }

  /** Joining a directory and a name places the name directly inside the cleaned directory. */
  lemma JoinName(a: string, b: string)
    requires IsName(b)
    ensures Base(Join([a, b])) == b
    ensures Dir(Join([a, b])) == Clean(a)
    ensures HasSuffix(Join([a, b]), b)
  {
    if a == "" {
      assert Join([a, b]) == Join([b]);
      CleanName(b);
      assert Join([a, b]) == b;
      DirBaseOfName("", b);
      CleanEmpty();
    } else {
      assert JoinWith([a, b], "/") == a + "/" + b;
      var p := Lex(a);
      LexCanonical(a);
      LexAppendName(a, b);
      RenderAppendName(p, b);
      if Parts(p) == [] {
        DirBaseOfName("", b);
        if p.rooted {
          assert Render(p) == "/";
          CleanRoot();
        }
      } else {
        RenderNotEmpty(p);
        var x := Render(p);
        DirBaseOfName(x, b);
        CleanTrailingSlash(x);
        LexRender(p);
      }
    }
  }

  // ---- Ext ----

  /** For an extension `e`, Ext returns `e` exactly when the path ends with `e`. */
  lemma ExtensionOf(s: string, e: string)
    requires IsExtension(e)
    ensures Ext(s) == e <==> HasSuffix(s, e)
  {
    if HasSuffix(s, e) {
      var r := Ext(s);
      var p := |s| - |e|;
      assert s[p] == '.' by { assert s[p] == e[0]; }
      forall j | p < j < |s| ensures s[j] != '.' && s[j] != '/' {
        assert s[j] == e[j - p];
      }
      assert LastIndexOf(s, '/') < p;
      assert r != "";
      assert |r| == |e|;
      assert r == s[|s| - |e|..];
    }
  }

  /** The last slash of a path ending in an extension lies before the extension. */
  lemma SlashBeforeExtension(s: string, e: string)
    requires IsExtension(e) && HasSuffix(s, e)
    ensures LastIndexOf(s, '/') < |s| - |e|
    ensures TrimTrailingSlashes(s) == s
  {
    var p := |s| - |e|;
    assert s[|s| - 1] == e[|e| - 1];
    forall j | p <= j < |s| ensures s[j] != '/' {
      assert s[j] == e[j - p];
    }
  }

  /** A path ending in an extension of two or more characters ends in a name carrying it. */
  lemma BaseWithExtension(s: string, e: string)
    requires IsExtension(e) && |e| >= 2 && HasSuffix(s, e)
    ensures IsName(Base(s)) && HasSuffix(Base(s), e)
  {
    SlashBeforeExtension(s, e);
    var l := LastIndexOf(s, '/');
    var u := s[l + 1..];
    assert Base(s) == u;
    assert |u| >= |e|;
    assert u[|u| - |e|..] == e;
    assert u[|u| - 1] == e[|e| - 1] != '.';
    forall k | 0 <= k < |u| ensures u[k] != '/' {
      assert u[k] == s[l + 1 + k];
    }
  }
}
