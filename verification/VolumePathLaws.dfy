/** What cleaning and relative paths mean, in the words of a path and not of a stack. */
module VolumePathLaws {
  import opened Wrappers
  import opened VolumePath

  // ---------- Cleaning ----------

  lemma StackSlash(a: FilePath, b: FilePath)
    ensures var p := a + "/" + b;
            Rooted(p) == (a == "" || Rooted(a)) && Stack(p) == Norm(Rooted(p), Norm(Rooted(p), [], Split(a)), Split(b))
  {
    hide Norm, Split;
    SplitSlash(a, b);
    NormAppend(Rooted(a + "/" + b), [], Split(a), Split(b));
  }

  lemma NormOne(rooted: bool, st: seq<string>, e: string)
    ensures Norm(rooted, st, [e]) == Push(rooted, st, e)
  {
    assert [e][1..] == [];
  }

  lemma MiddleElement(a: FilePath, e: string, b: FilePath)
    requires '/' !in e
    ensures var p := a + "/" + e + "/" + b;
            && Rooted(p) == (a == "" || Rooted(a))
            && Stack(p) == Norm(Rooted(p), Push(Rooted(p), Norm(Rooted(p), [], Split(a)), e), Split(b))
  {
    hide Norm, Split;
    var front, rooted := a + "/" + e, a == "" || Rooted(a);
    StackSlash(front, b);
    SplitSlash(a, e);
    SplitPlain(e);
    NormAppend(rooted, [], Split(a), [e]);
    NormOne(rooted, Norm(rooted, [], Split(a)), e);
    assert a + "/" + e + "/" + b == front + "/" + b;
  }

  lemma SameStackSameClean(p: FilePath, q: FilePath)
    requires Rooted(p) == Rooted(q) && Stack(p) == Stack(q)
    ensures Clean(p) == Clean(q)
  {
  }

  /** An empty element and a dot count for nothing. */
  lemma DotIsNothing(a: FilePath, b: FilePath)
    ensures Clean(a + "/./" + b) == Clean(a + "/" + b) == Clean(a + "//" + b)
  {
    hide Norm, Split, Clean, Stack;
    MiddleElement(a, ".", b);
    MiddleElement(a, "", b);
    StackSlash(a, b);
    assert a + "/" + "." + "/" + b == a + "/./" + b && a + "/" + "" + "/" + b == a + "//" + b;
    SameStackSameClean(a + "/./" + b, a + "/" + b);
    SameStackSameClean(a + "//" + b, a + "/" + b);
  }

  /** An element followed by `..` counts for nothing. */
  lemma UpCancels(a: FilePath, e: string, b: FilePath)
    requires Plain(e)
    ensures Clean(a + "/" + e + "/../" + b) == Clean(a + "/" + b)
  {
    hide Norm, Split, Clean, Stack;
    var rooted := a == "" || Rooted(a);
    var front := a + "/" + e;
    MiddleElement(front, "..", b);
    StackSlash(a, b);
    SplitSlash(a, e);
    SplitPlain(e);
    NormAppend(rooted, [], Split(a), [e]);
    NormOne(rooted, Norm(rooted, [], Split(a)), e);
    assert front + "/" + ".." + "/" + b == a + "/" + e + "/../" + b;
    PushPop(rooted, Norm(rooted, [], Split(a)), e);
    SameStackSameClean(a + "/" + e + "/../" + b, a + "/" + b);
  }

  lemma PushPop(rooted: bool, st: seq<string>, e: string)
    requires Plain(e)
    ensures Push(rooted, Push(rooted, st, e), "..") == st
  {
    assert (st + [e])[..|st|] == st;
  }

  /** At the root `..` counts for nothing. */
  lemma UpAtRoot(b: FilePath)
    ensures Clean("/../" + b) == Clean("/" + b)
  {
    hide Norm, Split, Clean, Stack;
    MiddleElement("", "..", b);
    StackSlash("", b);
    assert "" + "/" + ".." + "/" + b == "/../" + b && "" + "/" + b == "/" + b;
    SplitPlain("");
    NormOne(true, [], "");
    SameStackSameClean("/../" + b, "/" + b);
  }

  lemma {:induction false} UpsAre(n: nat)
    ensures |Ups(n)| == n && forall k :: 0 <= k < n ==> Ups(n)[k] == ".."
  {
    if n > 0 {
      UpsAre(n - 1);
    }
  }

  /** In front of an unrooted path any number of `..` stays. */
  lemma UpStaysInFront(n: nat, es: seq<string>)
    requires AllPlain(es) && n + |es| > 0
    ensures Clean(Join(Ups(n) + es)) == Join(Ups(n) + es)
  {
    hide Norm, Split, Join;
    var st := Ups(n) + es;
    UpsAre(n);
    assert forall k :: n <= k < |st| ==> Plain(st[k]);
    assert StackOk(false, st);
    SpellStack(false, st);
    JoinStarts(st);
    assert Spell(false, st) == Join(st);
  }

  // ---------- Relative paths ----------

  lemma NormLast(rooted: bool, st: seq<string>, init: seq<string>, e: string)
    ensures Norm(rooted, st, init + [e]) == Push(rooted, Norm(rooted, st, init), e)
  {
    hide Norm, Push;
    NormAppend(rooted, st, init, [e]);
    NormOne(rooted, Norm(rooted, st, init), e);
  }

  /** Normalising first does not change where a list of elements leads. */
  lemma {:induction false} NormNorm(rooted: bool, st: seq<string>, es: seq<string>)
    requires forall k :: 0 <= k < |es| ==> '/' !in es[k]
    ensures Norm(rooted, st, es) == Norm(rooted, st, Norm(false, [], es))
  {
    if es == [] {
    } else {
      hide Norm, Push;
      var init, e := es[..|es| - 1], es[|es| - 1];
      assert es == init + [e];
      NormNorm(rooted, st, init);
      NormLast(rooted, st, init, e);
      NormLast(false, [], init, e);
      NothingOk();
      NormOk(false, [], init);
      PushNorm(rooted, st, Norm(false, [], init), e);
    }
  }

  lemma PushNorm(rooted: bool, st: seq<string>, n: seq<string>, e: string)
    requires StackOk(false, n)
    ensures Norm(rooted, st, Push(false, n, e)) == Push(rooted, Norm(rooted, st, n), e)
  {
    hide Norm;
    if e == ".." && n != [] && n[|n| - 1] != ".." {
      var n0, x := n[..|n| - 1], n[|n| - 1];
      assert n == n0 + [x];
      NormLast(rooted, st, n0, x);
      PushPop(rooted, Norm(rooted, st, n0), x);
    } else if e != "" && e != "." {
      NormLast(rooted, st, n, e);
    }
  }

  lemma NothingOk()
    ensures StackOk(false, [])
  {
  }

  /** As many `..` as there are plain elements at the end take these away. */
  lemma {:induction false} UpsPop(rooted: bool, st: seq<string>, c: nat)
    requires c <= |st| && forall k :: c <= k < |st| ==> Plain(st[k])
    ensures Norm(rooted, st, Ups(|st| - c)) == st[..c]
    decreases |st|
  {
    if c < |st| {
      var init := st[..|st| - 1];
      assert Ups(|st| - c)[1..] == Ups(|init| - c);
      UpsPop(rooted, init, c);
      assert init[..c] == st[..c];
    } else {
      assert st[..c] == st;
    }
  }

  lemma {:induction false} CommonIsPrefix(b: seq<string>, t: seq<string>)
    ensures b[..Common(b, t)] == t[..Common(b, t)]
    ensures var c := Common(b, t); c < |b| && c < |t| ==> b[c] != t[c]
  {
    if b != [] && t != [] && b[0] == t[0] {
      CommonIsPrefix(b[1..], t[1..]);
      var c := Common(b[1..], t[1..]);
      assert b[..c + 1] == [b[0]] + b[1..][..c] && t[..c + 1] == [t[0]] + t[1..][..c];
    }
  }

  /** The parts of a cleaned path as a relative path compares them. */
  lemma TargetParts(rooted: bool, st: seq<string>)
    requires StackOk(rooted, st)
    ensures Split(OrDot(Spell(rooted, st))) == if st == [] && !rooted then ["."] else Parts(rooted, st)
  {
    hide Norm;
    SplitSpell(rooted, st);
    SplitPlain(".");
    SpellStack(rooted, st);
    if st != [] {
      JoinStarts(st);
      SplitJoin(st);
      assert Join(st) != ".";
    }
  }

  /** What is left of two different paths behind their common part, in elements. */
  lemma LeftOver(rooted: bool, b: seq<string>, t: seq<string>)
    requires StackOk(rooted, b) && StackOk(rooted, t) && b != t
    ensures var bs, ts := Parts(rooted, b), if t == [] && !rooted then ["."] else Parts(rooted, t);
            var k, c := Common(bs, ts), Common(b, t);
            && bs[k..] == (if b == [] then [""] else b[c..])
            && ts[k..] == RestOf(rooted, t, c)
  {
    var front := if rooted then [""] else [];
    var b1, t1 := if b == [] then [""] else b, if t != [] then t else if rooted then [""] else ["."];
    assert Parts(rooted, b) == front + b1;
    CommonPrefix(front, b1, t1);
    assert (front + b1)[|front|..] == b1 && (front + t1)[|front|..] == t1;
    var c := Common(b1, t1);
    assert (front + b1)[|front| + c..] == b1[c..] && (front + t1)[|front| + c..] == t1[c..];
    if b == [] || t == [] {
      assert c == 0 && Common(b, t) == 0;
      assert b1[0..] == b1 && t1[0..] == t1 && b[0..] == b && t[0..] == t;
    }
  }

  lemma PlainBehind(rooted: bool, b: seq<string>, c: nat)
    requires StackOk(rooted, b) && (c < |b| ==> b[c] != "..")
    ensures forall k :: c <= k < |b| ==> Plain(b[k])
  {
    if c < |b| {
      var top := b[c];
      forall k | c <= k < |b| ensures Plain(b[k]) {
        assert b[k] == ".." ==> top == "..";
      }
    }
  }

  /** What the left-over elements lead to from the base. */
  lemma Leads(rooted: bool, b: seq<string>, t: seq<string>)
    requires StackOk(rooted, b) && StackOk(rooted, t)
    requires var c := Common(b, t); c < |b| ==> b[c] != ".."
    ensures var c := Common(b, t); Norm(rooted, b, Ups(|b| - c) + t[c..]) == t
  {
    hide Norm, StackOk, Plain, Push, Ups, Common;
    var c := Common(b, t);
    PlainBehind(rooted, b, c);
    CommonIsPrefix(b, t);
    UpsPop(rooted, b, c);
    NormAppend(rooted, b, Ups(|b| - c), t[c..]);
    NormSelf(rooted, t, c);
  }

  lemma JoinIsEmpty(es: seq<string>)
    requires forall k :: 0 <= k < |es| ==> es[k] != ""
    ensures Join(es) == "" <==> es == []
  {
  }

  lemma AfterClean(rooted: bool, st: seq<string>, u: seq<string>)
    requires u != [] && forall k :: 0 <= k < |u| ==> '/' !in u[k] && u[k] != ""
    ensures Norm(rooted, st, Split(Clean(Join(u)))) == Norm(rooted, st, u)
  {
    hide Norm, Join, Split;
    var q := Join(u);
    SplitJoin(u);
    JoinStarts(u);
    assert !Rooted(q);
    StackIsOk(q);
    NormNorm(rooted, st, u);
    TargetParts(false, Stack(q));
    if Stack(q) == [] {
      NormOne(rooted, st, ".");
      NormDot(rooted, st);
    }
  }

  lemma NormDot(rooted: bool, st: seq<string>)
    ensures Norm(rooted, st, []) == st
  {
  }

  /** Nothing of the base is left: the path is what is left of the target. */
  lemma DownOnly(rooted: bool, b: seq<string>, t: seq<string>)
    requires StackOk(rooted, b) && StackOk(rooted, t) && b != t && Common(b, t) == |b|
    ensures var rest := t[|b|..]; rest != [] && Norm(rooted, b, Split(Join(rest))) == t
  {
    hide Norm, Join, StackOk, Plain, Push, Common;
    var rest := t[|b|..];
    CommonIsPrefix(b, t);
    assert b[..|b|] == b;
    assert t[..|b|] + rest == t && b + [] == b;
    NoEmpty(rooted, t);
    assert forall k :: 0 <= k < |rest| ==> rest[k] == t[|b| + k];
    SplitJoin(rest);
    NormSelf(rooted, t, |b|);
  }

  /** Something of the base is left: up once for each element, then down. */
  lemma UpAndDown(rooted: bool, b: seq<string>, t: seq<string>, rest: seq<string>)
    requires StackOk(rooted, b) && StackOk(rooted, t)
    requires var c := Common(b, t); c < |b| && b[c] != ".." && (rest == t[c..] || (t == [] && rest == ["."]))
    ensures Norm(rooted, b, Split(Clean(Join(Ups(|b| - Common(b, t)) + rest)))) == t
  {
    hide Norm, Join, Split, StackOk, Plain, Push, Common, Clean;
    var c := Common(b, t);
    var ups := Ups(|b| - c);
    Leads(rooted, b, t);
    UpsAre(|b| - c);
    NoEmpty(rooted, t);
    assert forall k :: 0 <= k < |t[c..]| ==> t[c..][k] == t[c + k];
    AfterClean(rooted, b, ups + rest);
    if rest != t[c..] {
      assert ups + t[c..] == ups;
      NormAppend(rooted, b, ups, ["."]);
      NormOne(rooted, t, ".");
      DotPush(rooted, t);
    }
  }

  lemma DotPush(rooted: bool, st: seq<string>)
    ensures Push(rooted, st, ".") == st
  {
  }

  lemma RelFromDown(b: seq<string>, t: seq<string>)
    requires b == [] || b == [""]
    ensures RelFrom(b, t) == Some(Join(t))
  {
    JoinNone();
  }

  lemma RelFromUp(b: seq<string>, t: seq<string>)
    requires b != [] && forall k :: 0 <= k < |b| ==> b[k] != ""
    ensures RelFrom(b, t) ==
              if b[0] == ".." then None
              else Some(Clean(Join(Ups(|b|) + (if Join(t) == "" then [] else t))))
  {
    hide Clean, Ups;
    JoinIsEmpty(b);
  }

  /** What is left of the target, as far as it has a spelling. */
  function RestOf(rooted: bool, t: seq<string>, c: nat): seq<string>
    requires c <= |t|
  {
    if t != [] then t[c..] else if rooted then [""] else ["."]
  }

  lemma RestSpells(rooted: bool, t: seq<string>, c: nat)
    requires StackOk(rooted, t) && c <= |t|
    ensures var r := RestOf(rooted, t, c);
            var u := if Join(r) == "" then [] else r;
            u == t[c..] || (t == [] && u == ["."])
  {
    NoEmpty(rooted, t);
    JoinNone();
    JoinIsEmpty(t[c..]);
  }

  /** The path between what is left of base and target exists unless the base still goes up, and leads there. */
  lemma RelFromLeads(rooted: bool, b: seq<string>, t: seq<string>)
    requires StackOk(rooted, b) && StackOk(rooted, t) && b != t
    ensures var c := Common(b, t);
            var rel := RelFrom(if b == [] then [""] else b[c..], RestOf(rooted, t, c));
            && (rel.Some? <==> !(c < |b| && b[c] == ".."))
            && (rel.Some? ==> Norm(rooted, b, Split(rel.value)) == t)
  {
    hide Norm, Split, Join, Clean, StackOk, Plain, Push, Ups, RelFrom, Common;
    var c := Common(b, t);
    if c == |b| {
      DownOnly(rooted, b, t);
      RelFromDown(if b == [] then [""] else b[c..], t[c..]);
    } else {
      NoEmpty(rooted, b);
      RelFromUp(b[c..], RestOf(rooted, t, c));
      RestSpells(rooted, t, c);
      if b[c] != ".." {
        var r := RestOf(rooted, t, c);
        UpAndDown(rooted, b, t, if Join(r) == "" then [] else r);
      }
    }
  }

  lemma NoEmpty(rooted: bool, st: seq<string>)
    requires StackOk(rooted, st)
    ensures forall k :: 0 <= k < |st| ==> st[k] != "" && '/' !in st[k]
  {
  }

  lemma NoDotRooted(p: FilePath)
    ensures Rooted(NoDot(p)) == Rooted(p)
  {
  }

  /**
   A relative path leads from the base to the target, and there is one exactly when both start at
   the root or neither does, and nothing of the base is left that goes up.
   */
  lemma RelLeads(base: FilePath, targ: FilePath)
    ensures var rel, b, t := Rel(base, targ), Stack(base), Stack(targ);
            var c := Common(b, t);
            && (rel.Some? <==> Rooted(base) == Rooted(targ) && (b == t || !(c < |b| && b[c] == "..")))
            && (rel.Some? ==> Clean(Clean(base) + "/" + rel.value) == Clean(targ))
  {
    hide Norm, Split, Join, Stack, StackOk, Common, RelFrom, Spell, NoDot;
    var b, t, rooted := Stack(base), Stack(targ), Rooted(base);
    CleanIdempotent(base);
    CleanIdempotent(targ);
    NoDotRooted(Clean(base));
    StackIsOk(base);
    StackIsOk(targ);
    if rooted == Rooted(targ) {
      if b == t {
        SameStackSameClean(base, targ);
        DotSuffix(Clean(base));
      } else {
        SplitSpell(rooted, b);
        TargetParts(rooted, t);
        LeftOver(rooted, b, t);
        RelFromLeads(rooted, b, t);
        var rel := Rel(base, targ);
        if rel.Some? {
          StackSlash(Clean(base), rel.value);
          StackOfClean(base);
          SameStackSameClean(Clean(base) + "/" + rel.value, targ);
        }
      }
    }
  }

  lemma DotSuffix(p: FilePath)
    requires p != ""
    ensures Clean(p + "/" + ".") == Clean(p)
  {
    hide Norm, Split, Clean;
    StackSlash(p, ".");
    SplitPlain(".");
    NormOne(Rooted(p), Stack(p), ".");
    SameStackSameClean(p + "/" + ".", p);
  }

  lemma StackOfClean(p: FilePath)
    ensures Norm(Rooted(p), [], Split(Clean(p))) == Stack(p) && Clean(p) != ""
  {
    CleanIdempotent(p);
  }
}
