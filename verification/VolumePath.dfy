/**
 FilePath spelling for a strategy's volume, after Go's `path/filepath` on Linux.

 A path is read as its elements; cleaning keeps a stack of them.  The methods in
 `VolumePathLoops.dfy` scan bytes and are proved equal to the functions here.
 */
module VolumePath {
  import opened Wrappers

  type FilePath = string

  // ---------- Elements ----------

  /** The parts between separators; one more than there are separators. */
  function Split(p: FilePath): (es: seq<string>)
    ensures |es| > 0
  {
    if p == "" then [""]
    else if p[0] == '/' then [""] + Split(p[1..])
    else var rest := Split(p[1..]); [[p[0]] + rest[0]] + rest[1..]
  }

  function Join(es: seq<string>): FilePath {
    if es == [] then ""
    else if |es| == 1 then es[0]
    else es[0] + "/" + Join(es[1..])
  }

  predicate Plain(e: string) {
    e != "" && e != "." && e != ".." && '/' !in e
  }

  /** One element on the stack of a cleaned path. */
  function Push(rooted: bool, st: seq<string>, e: string): seq<string> {
    if e == "" || e == "." then st
    else if e == ".." then
      if st != [] && st[|st| - 1] != ".." then st[..|st| - 1]
      else if rooted then st
      else st + [e]
    else st + [e]
  }

  function Norm(rooted: bool, st: seq<string>, es: seq<string>): seq<string>
    decreases |es|
  {
    if es == [] then st else Norm(rooted, Push(rooted, st, es[0]), es[1..])
  }

  function Rooted(p: FilePath): bool {
    p != "" && p[0] == '/'
  }

  /** The elements that are left of a path. */
  function Stack(p: FilePath): seq<string> {
    Norm(Rooted(p), [], Split(p))
  }

  function Spell(rooted: bool, st: seq<string>): FilePath {
    (if rooted then "/" else "") + Join(st)
  }

  /** A path with no element is spelt as a dot. */
  function OrDot(p: FilePath): FilePath {
    if p == "" then "." else p
  }

  function Clean(p: FilePath): FilePath {
    OrDot(Spell(Rooted(p), Stack(p)))
  }

  /** What the stack of a cleaned path looks like: `..` only in front, and only when unrooted. */
  ghost predicate StackOk(rooted: bool, st: seq<string>) {
    && (forall k :: 0 <= k < |st| ==> Plain(st[k]) || st[k] == "..")
    && (forall k :: 0 <= k < |st| && st[k] == ".." ==> !rooted && forall j :: 0 <= j < k ==> st[j] == "..")
  }

  // ---------- Splitting and joining ----------

  lemma {:induction false} SplitHasNoSlash(p: FilePath)
    ensures forall k :: 0 <= k < |Split(p)| ==> '/' !in Split(p)[k]
  {
    if p != "" {
      SplitHasNoSlash(p[1..]);
    }
  }

  lemma {:induction false} SplitPlain(e: string)
    requires '/' !in e
    ensures Split(e) == [e]
  {
    if e != "" {
      SplitPlain(e[1..]);
      assert [e[0]] + e[1..] == e;
    }
  }

  lemma {:induction false} SplitSlash(a: FilePath, b: FilePath)
    ensures Split(a + "/" + b) == Split(a) + Split(b)
  {
    var p := a + "/" + b;
    if a == "" {
      assert p[1..] == b;
    } else {
      assert p[1..] == a[1..] + "/" + b;
      SplitSlash(a[1..], b);
    }
  }

  lemma {:induction false} JoinSplit(p: FilePath)
    ensures Join(Split(p)) == p
  {
    if p != "" {
      JoinSplit(p[1..]);
      var rest := Split(p[1..]);
      if p[0] == '/' {
        assert Split(p)[1..] == rest;
      } else if |rest| > 1 {
        assert Split(p)[1..] == rest[1..];
      }
    }
  }

  lemma {:induction false} SplitJoin(es: seq<string>)
    requires es != [] && forall k :: 0 <= k < |es| ==> '/' !in es[k]
    ensures Split(Join(es)) == es
  {
    SplitPlain(es[0]);
    if |es| > 1 {
      SplitJoin(es[1..]);
      SplitSlash(es[0], Join(es[1..]));
    }
  }

  lemma {:induction false} JoinAppend(a: seq<string>, b: seq<string>)
    requires a != [] && b != []
    ensures Join(a + b) == Join(a) + "/" + Join(b)
  {
    if |a| == 1 {
      assert (a + b)[1..] == b;
    } else {
      JoinAppend(a[1..], b);
      assert (a + b)[1..] == a[1..] + b;
    }
  }

  // ---------- The stack ----------

  lemma {:induction false} NormAppend(rooted: bool, st: seq<string>, a: seq<string>, b: seq<string>)
    ensures Norm(rooted, st, a + b) == Norm(rooted, Norm(rooted, st, a), b)
    decreases |a|
  {
    if a == [] {
      assert a + b == b;
    } else {
      assert (a + b)[1..] == a[1..] + b;
      NormAppend(rooted, Push(rooted, st, a[0]), a[1..], b);
    }
  }

  lemma PushOk(rooted: bool, st: seq<string>, e: string)
    requires StackOk(rooted, st) && '/' !in e
    ensures StackOk(rooted, Push(rooted, st, e))
  {
    var s := Push(rooted, st, e);
    if e == ".." && s == st + [e] {
      forall j | 0 <= j < |st| ensures st[j] == ".." {
        assert st[|st| - 1] == "..";
      }
    }
  }

  lemma {:induction false} NormOk(rooted: bool, st: seq<string>, es: seq<string>)
    requires StackOk(rooted, st) && forall k :: 0 <= k < |es| ==> '/' !in es[k]
    ensures StackOk(rooted, Norm(rooted, st, es))
    decreases |es|
  {
    if es != [] {
      PushOk(rooted, st, es[0]);
      NormOk(rooted, Push(rooted, st, es[0]), es[1..]);
    }
  }

  /** Pushing the rest of a good stack gives the stack. */
  lemma {:induction false} NormSelf(rooted: bool, st: seq<string>, k: nat)
    requires StackOk(rooted, st) && k <= |st|
    ensures Norm(rooted, st[..k], st[k..]) == st
    decreases |st| - k
  {
    if k == |st| {
      assert st[..k] == st;
    } else {
      assert st[k..][1..] == st[k + 1..] && st[..k] + [st[k]] == st[..k + 1];
      NormSelf(rooted, st, k + 1);
    }
  }

  lemma SpellStack(rooted: bool, st: seq<string>)
    requires StackOk(rooted, st)
    ensures var p := OrDot(Spell(rooted, st)); Rooted(p) == rooted && Stack(p) == st
  {
    var p := Spell(rooted, st);
    NormSelf(rooted, st, 0);
    assert st[..0] == [] && st[0..] == st;
    if st == [] {
      assert rooted ==> p == "/" && p[1..] == "" && Split(p) == ["", ""];
      assert !rooted ==> Split(".") == ["."] by { SplitPlain("."); }
      assert Norm(rooted, [], ["", ""]) == [] && Norm(rooted, [], ["."]) == [] by {
        assert ["", ""][1..] == [""] && [""][1..] == [] && ["."][1..] == [];
      }
    } else {
      SplitJoin(st);
      JoinStarts(st);
      if rooted {
        assert p[1..] == Join(st);
        assert Split(p) == [""] + st && ([""] + st)[1..] == st;
      } else {
        assert p == Join(st);
      }
    }
  }

  lemma JoinStarts(st: seq<string>)
    requires st != [] && st[0] != "" && '/' !in st[0]
    ensures Join(st) != "" && Join(st)[0] != '/'
  {
    assert st[0][0] in st[0];
  }

  lemma StackIsOk(p: FilePath)
    ensures StackOk(Rooted(p), Stack(p))
  {
    SplitHasNoSlash(p);
    NormOk(Rooted(p), [], Split(p));
  }

  /** A cleaned path keeps its elements, and is cleaned. */
  lemma CleanIdempotent(p: FilePath)
    ensures Rooted(Clean(p)) == Rooted(p) && Stack(Clean(p)) == Stack(p)
    ensures Clean(Clean(p)) == Clean(p) && Clean(p) != ""
  {
    StackIsOk(p);
    SpellStack(Rooted(p), Stack(p));
  }

  // ---------- Names ----------

  datatype Error = EmptyDirectory | Name | WrongStep

  predicate CheckName(name: FilePath) {
    && name != "" && name != "." && !Rooted(name) && Clean(name) == name
    && forall k :: 0 <= k < |Split(name)| ==> Split(name)[k] != "" && Split(name)[k] != ".."
  }

  ghost predicate AllPlain(es: seq<string>) {
    forall k :: 0 <= k < |es| ==> Plain(es[k])
  }

  lemma {:induction false} NormPlain(rooted: bool, st: seq<string>, es: seq<string>)
    requires AllPlain(es)
    ensures Norm(rooted, st, es) == st + es
    decreases |es|
  {
    if es != [] {
      NormPlain(rooted, st + [es[0]], es[1..]);
      assert st + [es[0]] + es[1..] == st + es;
    }
  }

  /** An accepted name is a list of plain elements, and every such list is an accepted name. */
  lemma NameIsPlain(name: FilePath)
    ensures CheckName(name) <==> AllPlain(Split(name))
  {
    SplitHasNoSlash(name);
    JoinSplit(name);
    if AllPlain(Split(name)) {
      NormPlain(false, [], Split(name));
      assert [] + Split(name) == Split(name);
      JoinStarts(Split(name));
      SplitPlain(".");
    }
    if CheckName(name) {
      StackIsOk(name);
      var st := Stack(name);
      if st != [] {
        assert Spell(false, st) == Join(st);
        JoinStarts(st);
        SplitJoin(st);
        assert name == Join(st) && Split(name) == st;
      }
    }
  }

  // ---------- The destination ----------

  function JoinTwo(root: FilePath, name: FilePath): FilePath {
    Clean(root + "/" + name)
  }

  /** The position behind the last separator. */
  function DirEnd(p: FilePath): (k: nat)
    ensures k <= |p|
  {
    if p == "" || p[|p| - 1] == '/' then |p| else DirEnd(p[..|p| - 1])
  }

  function DirOf(p: FilePath): FilePath {
    Clean(p[..DirEnd(p)])
  }

  /** `dir`/`name` has the elements of the directory followed by those of the name. */
  lemma JoinTwoStack(dir: FilePath, name: FilePath)
    requires dir != "" && CheckName(name)
    ensures var path := JoinTwo(Clean(dir), name);
            && Rooted(path) == Rooted(dir) && Stack(path) == Stack(dir) + Split(name)
            && path == Spell(Rooted(dir), Stack(dir) + Split(name))
  {
    var root := Clean(dir);
    CleanIdempotent(dir);
    NameIsPlain(name);
    StackIsOk(dir);
    SplitSlash(root, name);
    NormAppend(Rooted(dir), [], Split(root), Split(name));
    NormPlain(Rooted(dir), Stack(dir), Split(name));
    var st := Stack(dir) + Split(name);
    var p := root + "/" + name;
    assert Rooted(p) == Rooted(root);
    assert Stack(p) == st;
    CleanIdempotent(p);
    JoinStarts(st);
  }

  lemma NormEmpty(rooted: bool, st: seq<string>)
    ensures Norm(rooted, st, [""]) == st
  {
    assert [""][1..] == [];
  }

  lemma DirOfTop(rooted: bool, last: string)
    requires Plain(last)
    ensures DirOf(Spell(rooted, [last])) == OrDot(Spell(rooted, []))
  {
    hide DirEnd, Norm;
    var front := if rooted then "/" else "";
    var p := Spell(rooted, [last]);
    assert p == front + last && p[..|front|] == front;
    DirEndBehind(front, last);
    SpellStack(true, []);
    NormEmpty(false, []);
    assert Spell(true, []) == "/" && Split("") == [""];
  }

  /** A trailing separator adds nothing. */
  lemma CleanTrailing(rooted: bool, st: seq<string>)
    requires StackOk(rooted, st) && st != []
    ensures Clean(Spell(rooted, st) + "/") == Spell(rooted, st)
  {
    hide Norm, Split, Join, StackOk;
    var dir := Spell(rooted, st);
    assert Join(st) != "" by { FirstPlain(rooted, st); JoinStarts(st); }
    SpellStack(rooted, st);
    SplitSlash(dir, "");
    SplitPlain("");
    assert dir + "/" + "" == dir + "/";
    NormAppend(rooted, [], Split(dir), [""]);
    NormEmpty(rooted, st);
  }

  lemma FirstPlain(rooted: bool, st: seq<string>)
    requires StackOk(rooted, st) && st != []
    ensures st[0] != "" && '/' !in st[0]
  {
  }

  /** Dropping the last element of a path spelt from a stack drops the last element of the stack. */
  lemma DirOfSpell(rooted: bool, st: seq<string>, last: string)
    requires StackOk(rooted, st) && Plain(last)
    ensures DirOf(Spell(rooted, st + [last])) == OrDot(Spell(rooted, st))
  {
    hide DirEnd, Norm, Split, Join, StackOk, Clean;
    if st == [] {
      assert [] + [last] == [last];
      DirOfTop(rooted, last);
    } else {
      var dir := Spell(rooted, st);
      JoinAppend(st, [last]);
      assert Join([last]) == last by { JoinOne(last); }
      assert Spell(rooted, st + [last]) == (dir + "/") + last;
      DirEndBehind(dir + "/", last);
      assert ((dir + "/") + last)[..|dir + "/"|] == dir + "/";
      CleanTrailing(rooted, st);
      assert Join(st) != "" by { FirstPlain(rooted, st); JoinStarts(st); }
    }
  }

  lemma JoinOne(e: string)
    ensures Join([e]) == e
  {
  }

  lemma {:induction false} DirEndBehind(dir: FilePath, e: string)
    requires '/' !in e && (dir == "" || dir[|dir| - 1] == '/')
    ensures DirEnd(dir + e) == |dir|
  {
    if e == "" {
      assert dir + e == dir;
    } else {
      assert (dir + e)[..|dir + e| - 1] == dir + e[..|e| - 1];
      DirEndBehind(dir, e[..|e| - 1]);
    }
  }

  // ---------- Relative paths ----------

  function Common(b: seq<string>, t: seq<string>): (k: nat)
    ensures k <= |b| && k <= |t|
  {
    if b == [] || t == [] || b[0] != t[0] then 0 else 1 + Common(b[1..], t[1..])
  }

  function Ups(n: nat): seq<string> {
    if n == 0 then [] else [".."] + Ups(n - 1)
  }

  /** From what is left of the base to what is left of the target. */
  function RelFrom(b: seq<string>, t: seq<string>): Option<FilePath> {
    if b != [] && b[0] == ".." then None
    else if Join(b) == "" then Some(Join(t))
    else Some(Clean(Join(Ups(|b|) + (if Join(t) == "" then [] else t))))
  }

  /** The base, with no element spelt as nothing. */
  function NoDot(p: FilePath): FilePath {
    if p == "." then "" else p
  }

  function Rel(basePath: FilePath, targPath: FilePath): Option<FilePath> {
    var base, targ := Clean(basePath), Clean(targPath);
    if targ == base then Some(".")
    else if Rooted(NoDot(base)) != Rooted(targ) then None
    else
      var b, t := Split(NoDot(base)), Split(targ);
      RelFrom(b[Common(b, t)..], t[Common(b, t)..])
  }

  lemma {:induction false} CommonPrefix(x: seq<string>, y: seq<string>, z: seq<string>)
    ensures Common(x + y, x + z) == |x| + Common(y, z)
  {
    if x == [] {
      assert x + y == y && x + z == z;
    } else {
      assert (x + y)[1..] == x[1..] + y && (x + z)[1..] == x[1..] + z;
      CommonPrefix(x[1..], y, z);
    }
  }

  /** The parts of a cleaned path, as a scan sees them. */
  function Parts(rooted: bool, st: seq<string>): seq<string> {
    if rooted then [""] + (if st == [] then [""] else st) else if st == [] then [""] else st
  }

  lemma SplitSpell(rooted: bool, st: seq<string>)
    requires StackOk(rooted, st)
    ensures Split(NoDot(OrDot(Spell(rooted, st)))) == Parts(rooted, st)
  {
    var p := Spell(rooted, st);
    if st != [] {
      SplitJoin(st);
      JoinStarts(st);
      assert rooted ==> p[1..] == Join(st);
      assert !rooted ==> p == Join(st);
      assert Join(st) != "." by { SplitPlain("."); }
    } else {
      assert rooted ==> p[1..] == "" && p == "/";
    }
  }

  /** Nothing of the base is left, and of the target the parts of the name. */
  lemma CommonParts(rooted: bool, st: seq<string>, n: seq<string>)
    requires AllPlain(n) && n != []
    ensures var b, t := Parts(rooted, st), Parts(rooted, st + n);
            var k := Common(b, t);
            (b[k..] == [] || b[k..] == [""]) && t[k..] == n
  {
    var b, t := Parts(rooted, st), Parts(rooted, st + n);
    if st == [] {
      assert st + n == n;
      var front := if rooted then [""] else [];
      assert b == front + [""] && t == front + n;
      CommonPrefix(front, [""], n);
      assert (front + [""])[|front|..] == [""] && (front + n)[|front|..] == n;
    } else {
      assert b + [] == b && t == b + n;
      CommonPrefix(b, [], n);
      assert (b + n)[|b|..] == n;
    }
  }

  lemma SpellWithName(rooted: bool, st: seq<string>, n: seq<string>)
    requires StackOk(rooted, st) && AllPlain(n) && n != []
    ensures StackOk(rooted, st + n)
    ensures var p := Spell(rooted, st + n); p != "" && NoDot(p) == p && Rooted(p) == rooted
    ensures Spell(rooted, st + n) != OrDot(Spell(rooted, st))
  {
    hide Norm, Split, Join;
    forall k | 0 <= k < |st + n| ensures Plain((st + n)[k]) || (st + n)[k] == ".." {
    }
    assert StackOk(rooted, st + n);
    SpellStack(rooted, st + n);
    SpellStack(rooted, st);
    FirstPlain(rooted, st + n);
    JoinStarts(st + n);
    SpellStack(false, []);
    assert Join([]) == "" by { JoinNone(); }
  }

  lemma JoinNone()
    ensures Join([]) == "" && Join([""]) == ""
  {
  }

  /** The name comes back as the way from the directory to the destination. */
  lemma RelOfJoin(dir: FilePath, name: FilePath)
    requires dir != "" && CheckName(name)
    ensures Rel(Clean(dir), JoinTwo(Clean(dir), name)) == Some(name)
  {
    hide Norm, Split, Join, Stack, Spell, StackOk, Common, CheckName;
    var rooted, st, n := Rooted(dir), Stack(dir), Split(name);
    CleanIdempotent(dir);
    StackIsOk(dir);
    JoinTwoStack(dir, name);
    NameIsPlain(name);
    JoinSplit(name);
    SpellWithName(rooted, st, n);
    CleanIdempotent(Clean(dir) + "/" + name);
    SplitSpell(rooted, st);
    SplitSpell(rooted, st + n);
    CommonParts(rooted, st, n);
    JoinNone();
  }

  // ---------- Where a name is written ----------

  /** The directory of the destination and its path. */
  function Within(dir: FilePath, name: FilePath): Result<(FilePath, FilePath), Error> {
    if dir == "" then Err(EmptyDirectory)
    else if !CheckName(name) then Err(Name)
    else
      var root := Clean(dir);
      var path := JoinTwo(root, name);
      match Rel(root, path)
      case None => Err(Name)
      case Some(rel) =>
        if rel == ".." || (|rel| >= 3 && rel[..3] == "../") then Err(Name)
        else Ok((DirOf(path), path))
  }

  /**
   A write is planned exactly for a non-empty directory and a name of plain elements; it lands
   at the directory's elements followed by the name's, and its temp file beside it.
   */
  lemma {:induction false} WithinExact(dir: FilePath, name: FilePath)
    ensures Within(dir, name).Ok? <==> dir != "" && AllPlain(Split(name))
    ensures Within(dir, name).Err? ==> Within(dir, name).error == if dir == "" then EmptyDirectory else Error.Name
    ensures Within(dir, name).Ok? ==>
              var (parent, path) := Within(dir, name).value;
              var st, n := Stack(dir), Split(name);
              && path == Spell(Rooted(dir), st + n)
              && Stack(path) == st + n && Rooted(path) == Rooted(dir)
              && parent == OrDot(Spell(Rooted(dir), st + n[..|n| - 1]))
  {
    hide Norm, Split, Join, Rel, DirOf, CheckName;
    NameIsPlain(name);
    if dir != "" && CheckName(name) {
      var n := Split(name);
      RelOfJoin(dir, name);
      JoinTwoStack(dir, name);
      StackIsOk(dir);
      var st, last := Stack(dir) + n[..|n| - 1], n[|n| - 1];
      assert Stack(dir) + n == st + [last];
      assert StackOk(Rooted(dir), st);
      DirOfSpell(Rooted(dir), st, last);
      NameStaysInside(name);
    }
  }

  lemma {:induction false} NameStaysInside(name: FilePath)
    requires AllPlain(Split(name))
    ensures name != ".." && !(|name| >= 3 && name[..3] == "../")
  {
    hide Split;
    SplitPlain("..");
    if |name| >= 3 && name[..3] == "../" {
      StartsUp(name);
    }
  }

  lemma {:induction false} StartsUp(name: FilePath)
    requires |name| >= 3 && name[..3] == "../"
    ensures Split(name)[0] == ".."
  {
    hide Split;
    assert name == name[..3] + name[3..];
    assert name == ".." + "/" + name[3..];
    SplitPlain("..");
    SplitSlash("..", name[3..]);
  }
}
