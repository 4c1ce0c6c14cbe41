/**
 * Unix paths as `std::path::Path` sees them: the raw text, the components
 * parsed from it, the file name, the extension, and the component-wise
 * order and equality that `PathBuf`'s `Ord` and `PartialEq` use.
 */
module Paths {
  import opened Wrappers
  import opened Text

  /** `std::path::Component` on Unix (there is no prefix component). */
  datatype Component = RootDir | CurDir | ParentDir | Normal(name: string)

  /** A path as the operating system string it wraps. */
  datatype FsPath = FsPath(text: string)

  /** A `Normal` component is a non-empty name other than `.` and `..`, free of `/`. */
  predicate ProperName(name: string) {
    name != "" && name != "." && name != ".." && '/' !in name
  }

  /** The components of the `/`-separated pieces: empty pieces and `.` vanish, `..` is `ParentDir`. */
  function NormalComponents(pieces: seq<string>): (cs: seq<Component>)
    requires forall k :: 0 <= k < |pieces| ==> '/' !in pieces[k]
    ensures forall k :: 0 <= k < |cs| ==> cs[k] == ParentDir || (cs[k].Normal? && ProperName(cs[k].name))
    ensures |cs| <= |pieces|
  {
    if |pieces| == 0 then []
    else
      var p := pieces[0];
      var head := if p == "" || p == "." then [] else if p == ".." then [ParentDir] else [Normal(p)];
      head + NormalComponents(pieces[1..])
  }

  /**
   * `Path::components`: a leading `/` gives `RootDir`; a relative path that
   * is `.` or starts with `./` gives `CurDir`; repeated separators, inner `.`
   * and a trailing `/` leave no trace.
   */
  function Components(p: FsPath): (cs: seq<Component>)
    ensures (|cs| > 0 && cs[0] == RootDir) <==> (|p.text| > 0 && p.text[0] == '/')
    ensures forall k :: 0 < k < |cs| ==> cs[k] == ParentDir || (cs[k].Normal? && ProperName(cs[k].name))
  {
    var pieces := Split(p.text, '/');
    SplitPartsFree(p.text, '/');
    var lead :=
      if |p.text| > 0 && p.text[0] == '/' then [RootDir]
      else if pieces[0] == "." then [CurDir]
      else [];
    lead + NormalComponents(pieces)
  }

  /** One `Normal` component per name. */
  function Normals(names: seq<string>): seq<Component> {
    if |names| == 0 then [] else [Normal(names[0])] + Normals(names[1..])
  }

  /** Names that can stand between separators as `Normal` components. */
  predicate ProperNames(names: seq<string>) {
    forall k :: 0 <= k < |names| ==> ProperName(names[k])
  }

  /** Proper names are kept as they are, one `Normal` component each. */
  lemma {:induction false} NormalComponentsOfNames(names: seq<string>)
    requires ProperNames(names)
    ensures NormalComponents(names) == Normals(names)
    decreases |names|
  {
    if |names| > 0 {
      NormalComponentsOfNames(names[1..]);
    }
  }

  /** Proper names joined with `/` give exactly those names as components, in order. */
  lemma {:induction false} RelativeComponents(names: seq<string>)
    requires |names| > 0 && ProperNames(names)
    ensures Components(FsPath(JoinWith(names, '/'))) == Normals(names)
  {
    JoinSplitRoundTrip(names, '/');
    NormalComponentsOfNames(names);
    assert JoinWith(names, '/')[0] == names[0][0];
  }

  /** A piece without `/` followed by `/` is the first part of the split. */
  lemma {:induction false} SplitAfterPiece(head: string, rest: string)
    requires '/' !in head
    ensures Split(head + "/" + rest, '/') == [head] + Split(rest, '/')
  {
    var s := head + "/" + rest;
    assert s[|head|] == '/';
    assert forall j :: 0 <= j < |head| ==> s[j] == head[j];
    assert IndexOf(s, '/') == |head|;
    SplitAtSeparator(s, '/');
    assert s[..|head|] == head && s[|head| + 1..] == rest;
  }

  /** A leading `/` adds the root in front of the names. */
  lemma {:induction false} AbsoluteComponents(names: seq<string>)
    requires |names| > 0 && ProperNames(names)
    ensures Components(FsPath("/" + JoinWith(names, '/'))) == [RootDir] + Normals(names)
  {
    var j := JoinWith(names, '/');
    SplitAfterPiece("", j);
    assert "" + "/" + j == "/" + j;
    JoinSplitRoundTrip(names, '/');
    assert ([""] + names)[1..] == names;
    NormalComponentsOfNames(names);
  }

  /** A leading `./` adds `CurDir` in front of the names. */
  lemma {:induction false} CurDirComponents(names: seq<string>)
    requires |names| > 0 && ProperNames(names)
    ensures Components(FsPath("./" + JoinWith(names, '/'))) == [CurDir] + Normals(names)
  {
    var j := JoinWith(names, '/');
    SplitAfterPiece(".", j);
    assert "." + "/" + j == "./" + j;
    JoinSplitRoundTrip(names, '/');
    assert (["."] + names)[1..] == names;
    NormalComponentsOfNames(names);
  }

  /** `Path::file_name`: the last component when it is a normal one. */
  function FileName(p: FsPath): (r: Option<string>)
    ensures r.Some? ==> ProperName(r.value)
  {
    var cs := Components(p);
    if |cs| > 0 && cs[|cs| - 1].Normal? then Some(cs[|cs| - 1].name) else None
  }

  /**
   * `Path::extension`: what follows the last `.` of the file name, unless the
   * name has no `.` or its only `.` is the leading one.
   */
  function Extension(p: FsPath): (r: Option<string>)
    ensures r.Some? <==>
      FileName(p).Some? && LastIndexOf(FileName(p).value, '.').Some? && LastIndexOf(FileName(p).value, '.').value > 0
    ensures r.Some? ==> '.' !in r.value && EndsWith(FileName(p).value, "." + r.value)
  {
    match FileName(p)
    case None => None
    case Some(name) =>
      match LastIndexOf(name, '.')
      case None => None
      case Some(k) =>
        if k == 0 then None
        else
          assert name[k..] == "." + name[k + 1..];
          Some(name[k + 1..])
  }

  // ---------------------------------------------------------------------------
  // Order and equality
  // ---------------------------------------------------------------------------

  /** Declaration order of the `Component` variants, which the derived `Ord` follows. */
  function Rank(c: Component): nat {
    match c
    case RootDir => 0
    case CurDir => 1
    case ParentDir => 2
    case Normal(_) => 3
  }

  /** Lexicographic order on strings by code point, which is byte order on their UTF-8 encodings. */
  predicate StringLess(a: string, b: string)
    decreases |a|
  {
    |b| > 0 && (|a| == 0 || a[0] < b[0] || (a[0] == b[0] && StringLess(a[1..], b[1..])))
  }

  predicate ComponentLess(a: Component, b: Component) {
    Rank(a) < Rank(b) || (a.Normal? && b.Normal? && StringLess(a.name, b.name))
  }

  /** Lexicographic order on component sequences. */
  predicate ComponentsLess(a: seq<Component>, b: seq<Component>)
    decreases |a|
  {
    |b| > 0 && (|a| == 0 || ComponentLess(a[0], b[0]) || (a[0] == b[0] && ComponentsLess(a[1..], b[1..])))
  }

  /** `PathBuf`'s `Ord`: paths compare component by component. */
  predicate PathLess(p: FsPath, q: FsPath) {
    ComponentsLess(Components(p), Components(q))
  }

  /** `PathBuf`'s `PartialEq`: paths are equal when their components are. */
  predicate SamePath(p: FsPath, q: FsPath) {
    Components(p) == Components(q)
  }

  lemma {:induction false} StringLessIrreflexive(a: string)
    ensures !StringLess(a, a)
    decreases |a|
  {
    if |a| > 0 {
      StringLessIrreflexive(a[1..]);
    }
  }

  lemma {:induction false} StringLessTransitive(a: string, b: string, c: string)
    requires StringLess(a, b) && StringLess(b, c)
    ensures StringLess(a, c)
    decreases |a|
  {
    if |a| > 0 && a[0] == b[0] && b[0] == c[0] {
      StringLessTransitive(a[1..], b[1..], c[1..]);
    }
  }

  lemma {:induction false} StringLessTotal(a: string, b: string)
    ensures a == b || StringLess(a, b) || StringLess(b, a)
    decreases |a|
  {
    if |a| > 0 && |b| > 0 && a[0] == b[0] {
      StringLessTotal(a[1..], b[1..]);
      assert a == [a[0]] + a[1..];
      assert b == [b[0]] + b[1..];
    }
  }

  lemma {:induction false} ComponentLessIrreflexive(a: Component)
    ensures !ComponentLess(a, a)
  {
    if a.Normal? {
      StringLessIrreflexive(a.name);
    }
  }

  lemma {:induction false} ComponentLessTransitive(a: Component, b: Component, c: Component)
    requires ComponentLess(a, b) && ComponentLess(b, c)
    ensures ComponentLess(a, c)
  {
    if a.Normal? && b.Normal? && c.Normal? {
      StringLessTransitive(a.name, b.name, c.name);
    }
  }

  lemma {:induction false} ComponentLessTotal(a: Component, b: Component)
    ensures a == b || ComponentLess(a, b) || ComponentLess(b, a)
  {
    if a.Normal? && b.Normal? {
      StringLessTotal(a.name, b.name);
    }
  }

  lemma {:induction false} ComponentsLessIrreflexive(a: seq<Component>)
    ensures !ComponentsLess(a, a)
    decreases |a|
  {
    if |a| > 0 {
      ComponentLessIrreflexive(a[0]);
      ComponentsLessIrreflexive(a[1..]);
    }
  }

  lemma {:induction false} ComponentsLessTransitive(a: seq<Component>, b: seq<Component>, c: seq<Component>)
    requires ComponentsLess(a, b) && ComponentsLess(b, c)
    ensures ComponentsLess(a, c)
    decreases |a|
  {
    if |a| > 0 {
      if ComponentLess(a[0], b[0]) && ComponentLess(b[0], c[0]) {
        ComponentLessTransitive(a[0], b[0], c[0]);
      } else if a[0] == b[0] && b[0] == c[0] {
        ComponentsLessTransitive(a[1..], b[1..], c[1..]);
      }
    }
  }

  lemma {:induction false} ComponentsLessTotal(a: seq<Component>, b: seq<Component>)
    ensures a == b || ComponentsLess(a, b) || ComponentsLess(b, a)
    decreases |a|
  {
    if |a| > 0 && |b| > 0 {
      ComponentLessTotal(a[0], b[0]);
      if a[0] == b[0] {
        ComponentsLessTotal(a[1..], b[1..]);
        assert a == [a[0]] + a[1..];
        assert b == [b[0]] + b[1..];
      }
    }
  }

  /** `PathLess` is a strict order whose incomparable pairs are exactly the `SamePath` pairs. */
  lemma {:induction false} PathOrder(p: FsPath, q: FsPath, r: FsPath)
    ensures !PathLess(p, p)
    ensures PathLess(p, q) && PathLess(q, r) ==> PathLess(p, r)
    ensures SamePath(p, q) || PathLess(p, q) || PathLess(q, p)
    ensures PathLess(p, q) ==> !SamePath(p, q) && !PathLess(q, p)
  {
    ComponentsLessIrreflexive(Components(p));
    ComponentsLessTotal(Components(p), Components(q));
    if PathLess(p, q) && PathLess(q, r) {
      ComponentsLessTransitive(Components(p), Components(q), Components(r));
    }
    if PathLess(p, q) && PathLess(q, p) {
      ComponentsLessTransitive(Components(p), Components(q), Components(p));
    }
  }
}
