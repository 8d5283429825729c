/**
 Absolute paths as strings, and what prefixes and slash counts say about them.
 */
module TreePaths {
  type Path = string

  /** "/" itself, or names separated by single slashes. */
  predicate WellFormed(p: Path) {
    p == "/" || (|p| >= 2 && p[0] == '/' && p[|p| - 1] != '/' && NoEmptyName(p))
  }

  predicate NoEmptyName(p: string) {
    forall i :: 0 <= i < |p| - 1 ==> p[i] != '/' || p[i + 1] != '/'
  }

  /** What every path below the directory `d` begins with. */
  function Under(d: Path): Path {
    if |d| > 0 && d[|d| - 1] == '/' then d else d + "/"
  }

  /** `q` lies below the directory `d`, at any depth. */
  predicate Inside(q: Path, d: Path) {
    Under(d) <= q && q != Under(d)
  }

  function Slashes(p: Path): nat {
    if p == "" then 0 else Slashes(p[..|p| - 1]) + (if p[|p| - 1] == '/' then 1 else 0)
  }

  /** The number of names in a path. */
  function Depth(p: Path): int {
    Slashes(Under(p)) - 1
  }

  predicate IsName(s: string) {
    s != "" && forall i :: 0 <= i < |s| ==> s[i] != '/'
  }

  /** The position after the last slash. */
  function NameStart(p: Path): (i: nat)
    ensures i <= |p|
    ensures i > 0 ==> p[i - 1] == '/'
    ensures forall j :: i <= j < |p| ==> p[j] != '/'
  {
    if p == "" || p[|p| - 1] == '/' then |p| else NameStart(p[..|p| - 1])
  }

  /** `branch_path`: the directory a path is in; nothing for the root. */
  function Parent(p: Path): Path {
    var i := NameStart(p);
    if p == "/" || i == 0 then "" else if i == 1 then "/" else p[..i - 1]
  }

  /** A path below `src`, or `src` itself, carried over to `dst`. */
  function MovePath(q: Path, src: Path, dst: Path): Path
    requires |src| <= |q|
  {
    dst + q[|src|..]
  }

  // ---------- Counting ----------

  lemma {:induction false} SlashesAdd(a: string, b: string)
    ensures Slashes(a + b) == Slashes(a) + Slashes(b)
    decreases |b|
  {
    if b == "" {
      assert a + b == a;
    } else {
      var b' := b[..|b| - 1];
      assert (a + b)[..|a + b| - 1] == a + b';
      SlashesAdd(a, b');
    }
  }

  lemma {:induction false} NamesHaveNone(s: string)
    requires forall i :: 0 <= i < |s| ==> s[i] != '/'
    ensures Slashes(s) == 0
    decreases |s|
  {
    if s != "" {
      NamesHaveNone(s[..|s| - 1]);
    }
  }

  lemma OneSlash()
    ensures Slashes("/") == 1
  {
    assert "/"[..0] == "";
  }

  lemma NoEmptyNameJoin(a: string, b: string)
    requires NoEmptyName(a) && NoEmptyName(b)
    requires a == "" || b == "" || a[|a| - 1] != '/' || b[0] != '/'
    ensures NoEmptyName(a + b)
  {
    var p := a + b;
    forall i | 0 <= i < |p| - 1
      ensures p[i] != '/' || p[i + 1] != '/'
    {
      if i + 1 < |a| {
        assert p[i] == a[i] && p[i + 1] == a[i + 1];
      } else if i >= |a| {
        assert p[i] == b[i - |a|] && p[i + 1] == b[i - |a| + 1];
      }
    }
  }

  lemma NoEmptyNamePart(p: string, i: nat, j: nat)
    requires NoEmptyName(p) && i <= j <= |p|
    ensures NoEmptyName(p[i..j])
  {
    var q := p[i..j];
    forall k | 0 <= k < |q| - 1
      ensures q[k] != '/' || q[k + 1] != '/'
    {
      assert q[k] == p[i + k] && q[k + 1] == p[i + k + 1];
    }
  }

  // ---------- A path is its parent and a name ----------

  lemma UnderIsDirectory(d: Path)
    requires WellFormed(d)
    ensures var u := Under(d);
            NoEmptyName(u) && |u| > 0 && u[0] == '/' && u[|u| - 1] == '/' && u == if d == "/" then "/" else d + "/"
  {
    if d != "/" {
      NoEmptyNameJoin(d, "/");
    }
  }

  /** A name put below a directory: the path has that parent, and one name more. */
  lemma ChildPath(d: Path, name: string)
    requires WellFormed(d) && IsName(name)
    ensures var p := Under(d) + name;
            WellFormed(p) && p != "/" && Parent(p) == d && Depth(p) == Depth(d) + 1 && Inside(p, d)
  {
    hide NoEmptyName, Slashes, NameStart;
    var u := Under(d);
    var p := u + name;
    UnderIsDirectory(d);
    NameHasNoEmptyName(name);
    NoEmptyNameJoin(u, name);
    NameStartOf(u, name);
    assert p[|p| - 1] == name[|name| - 1];
    assert d != "/" ==> p[..|u| - 1] == d;
    SlashesAdd(p, "/");
    SlashesAdd(u, name);
    NamesHaveNone(name);
    OneSlash();
  }

  lemma NameHasNoEmptyName(name: string)
    requires IsName(name)
    ensures NoEmptyName(name)
  {
  }

  lemma NameStartOf(u: string, name: string)
    requires |u| > 0 && u[|u| - 1] == '/' && IsName(name)
    ensures NameStart(u + name) == |u|
  {
    var p := u + name;
    assert forall k :: 0 <= k < |u| ==> p[k] == u[k];
    assert forall k :: |u| <= k < |p| ==> p[k] == name[k - |u|];
  }

  /** Up to the last slash a path is well formed or "/". */
  lemma DirectoryPart(p: Path)
    requires WellFormed(p) && p != "/"
    ensures 1 <= NameStart(p) < |p|
    ensures WellFormed(Parent(p)) && Under(Parent(p)) == p[..NameStart(p)]
  {
    hide NameStart;
    var i := NameStart(p);
    if i > 1 {
      var d := p[..i - 1];
      NoEmptyNamePart(p, 0, i - 1);
      assert forall k :: 0 <= k < |d| ==> d[k] == p[k];
      assert d + "/" == p[..i];
    }
  }

  /** Every path but the root is a name below its parent. */
  lemma Decompose(p: Path) returns (name: string)
    requires WellFormed(p) && p != "/"
    ensures WellFormed(Parent(p)) && IsName(name) && p == Under(Parent(p)) + name
    ensures Depth(p) == Depth(Parent(p)) + 1 && Inside(p, Parent(p)) && |Parent(p)| < |p|
  {
    hide WellFormed, Parent, Under;
    DirectoryPart(p);
    name := p[NameStart(p)..];
    var d := Parent(p);
    assert p == Under(d) + name;
    ChildPath(d, name);
    hide *;
    UnderLonger(d);
  }

  lemma UnderLonger(d: Path)
    ensures |Under(d)| >= |d|
  {
  }

  // ---------- Inside ----------

  lemma UnderInjective(d: Path, e: Path)
    requires WellFormed(d) && WellFormed(e) && Under(d) == Under(e)
    ensures d == e
  {
    if d != "/" && e != "/" {
      assert d == Under(d)[..|d|] && e == Under(e)[..|e|];
    }
  }

  /** What lies inside `d` has a parent that is `d` or lies inside `d`. */
  lemma InsideParent(q: Path, d: Path)
    requires WellFormed(q) && WellFormed(d) && Inside(q, d)
    ensures q != "/" && (Parent(q) == d || Inside(Parent(q), d))
  {
    hide NoEmptyName, Parent;
    UnderIsDirectory(d);
    var u := Under(d);
    assert q != "/";
    var name := Decompose(q);
    var p := Parent(q);
    UnderIsDirectory(p);
    assert q[|u| - 1] == '/';
    assert forall k :: |Under(p)| <= k < |q| ==> q[k] == name[k - |Under(p)|];
    assert u <= Under(p);
    if u == Under(p) {
      UnderInjective(p, d);
    } else {
      assert p != "/" && Under(p)[|u| - 1] == '/' && p[|p| - 1] != '/';
      assert u <= p;
    }
  }

  lemma InsideIsDeeper(q: Path, d: Path)
    requires WellFormed(q) && WellFormed(d) && Inside(q, d)
    ensures Depth(q) > Depth(d)
  {
    InsideParent(q, d);
    var u := Under(d);
    var rest := q[|u|..];
    assert Under(q) == u + (rest + "/");
    SlashesAdd(u, rest + "/");
    SlashesAdd(rest, "/");
    OneSlash();
  }

  /** Below `d` and one name deeper: exactly the paths whose parent is `d`. */
  lemma DirectChild(q: Path, d: Path)
    requires WellFormed(q) && WellFormed(d)
    ensures Under(d) <= q && Depth(q) == Depth(d) + 1 <==> q != "/" && Parent(q) == d
  {
    if q != "/" && Parent(q) == d {
      var name := Decompose(q);
    } else if Under(d) <= q && Depth(q) == Depth(d) + 1 {
      assert q == Under(d) ==> q == d;
      InsideParent(q, d);
      var name := Decompose(q);
      InsideIsDeeper(Parent(q), d);
    }
  }

  lemma InsideTransitive(p: Path, q: Path, d: Path)
    requires WellFormed(p) && WellFormed(q) && WellFormed(d)
    requires Inside(p, q) && (Inside(q, d) || q == d)
    ensures Inside(p, d)
  {
    if q != d {
      InsideParent(q, d);
      assert Under(d) <= q <= Under(q) <= p;
      assert |Under(q)| < |p|;
    }
  }

  // ---------- Moving ----------

  predicate Within(q: Path, d: Path) {
    q == d || Inside(q, d)
  }

  lemma MovedForm(s: string, src: Path, dst: Path)
    requires WellFormed(src) && WellFormed(dst) && src != "/" && dst != "/" && WellFormed(src + s)
    requires s == "" || s[0] == '/'
    ensures WellFormed(dst + s) && dst + s != "/"
  {
    var p, q := dst + s, src + s;
    if s == "" {
      assert p == dst;
    } else {
      assert s == q[|src|..|q|];
      NoEmptyNamePart(q, |src|, |q|);
      NoEmptyNameJoin(dst, s);
      assert p[|p| - 1] == q[|q| - 1];
    }
  }

  lemma DepthOfExtension(src: Path, s: string)
    requires WellFormed(src) && src != "/" && WellFormed(src + s) && src + s != "/"
    ensures Depth(src + s) == Depth(src) + Slashes(s)
  {
    hide NoEmptyName, Slashes;
    SlashesAdd(src + s, "/");
    SlashesAdd(src, s);
    SlashesAdd(src, "/");
  }

  lemma Suffix(q: Path, src: Path)
    requires WellFormed(src) && src != "/" && Within(q, src)
    ensures |src| <= |q| && q == src + q[|src|..]
    ensures var s := q[|src|..];
            (s == "" || s[0] == '/') && s != "/" && (s == "" <==> q == src)
  {
    hide NoEmptyName;
    if q != src {
      assert Under(src) == src + "/" && Under(src)[|src|] == '/';
      assert q[..|src|] == src;
      assert q == src + q[|src|..];
    }
  }

  /** A moved path is well formed, lies within the new place, and its depth shifts by the depth difference. */
  lemma Moved(q: Path, src: Path, dst: Path)
    requires WellFormed(q) && WellFormed(src) && WellFormed(dst) && src != "/" && dst != "/" && Within(q, src)
    ensures |src| <= |q|
    ensures var p := MovePath(q, src, dst);
            && WellFormed(p) && p != "/" && Within(p, dst) && (p == dst <==> q == src)
            && Depth(p) == Depth(q) + Depth(dst) - Depth(src)
            && |dst| <= |p| && MovePath(p, dst, src) == q
  {
    Suffix(q, src);
    var s := q[|src|..];
    var p := dst + s;
    MovedForm(s, src, dst);
    DepthOfExtension(src, s);
    DepthOfExtension(dst, s);
    hide WellFormed, Depth;
    assert p[|dst|..] == s;
    WithinBySuffix(dst, s);
  }

  lemma WithinBySuffix(dst: Path, s: string)
    requires WellFormed(dst) && dst != "/" && (s == "" || s[0] == '/') && s != "/"
    ensures Within(dst + s, dst) && (dst + s == dst <==> s == "")
  {
    hide NoEmptyName;
    var p := dst + s;
    if s != "" {
      assert p[|dst|] == s[0];
      assert Under(dst) == p[..|dst| + 1];
      assert s == p[|dst|..] && (dst + "/")[|dst|..] == "/";
    }
  }

  lemma CarryOver(src: Path, dst: Path, s: string, name: string)
    requires WellFormed(src + s) && WellFormed(dst + s) && src + s != "/" && dst + s != "/"
    ensures var q := Under(src + s) + name;
            |src| <= |q| && MovePath(q, src, dst) == Under(dst + s) + name
  {
    hide NoEmptyName;
    var q := Under(src + s) + name;
    assert q == src + (s + "/" + name);
    assert q[|src|..] == s + "/" + name;
  }

  /** Moving keeps who is whose parent. */
  lemma MovedParent(q: Path, src: Path, dst: Path)
    requires WellFormed(q) && WellFormed(src) && WellFormed(dst) && src != "/" && dst != "/" && Inside(q, src)
    ensures Within(Parent(q), src) && |src| <= |Parent(q)| && |src| <= |q|
    ensures Parent(MovePath(q, src, dst)) == MovePath(Parent(q), src, dst)
  {
    InsideParent(q, src);
    var name := Decompose(q);
    var p := Parent(q);
    Moved(p, src, dst);
    Suffix(p, src);
    hide NoEmptyName, Parent, Depth, Under, Within, Inside, WellFormed, IsName;
    var s := p[|src|..];
    assert p != "/" by {
      RootIsNotWithin(src);
    }
    CarryOver(src, dst, s, name);
    ChildPath(dst + s, name);
  }

  lemma RootIsNotWithin(src: Path)
    requires WellFormed(src) && src != "/"
    ensures !Within("/", src)
  {
    assert |Under(src)| > 1;
  }
}
