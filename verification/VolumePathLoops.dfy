/** The byte loops behind the path functions, each proved equal to its function. */
module VolumePathLoops {
  import opened Wrappers
  import opened VolumePath

  // ---------- Clean ----------

  lemma SplitElem(rooted: bool, st: seq<string>, q: FilePath, k: nat)
    requires k <= |q| && '/' !in q[..k] && (k == |q| || q[k] == '/')
    ensures Norm(rooted, st, Split(q)) == Norm(rooted, Push(rooted, st, q[..k]), Split(q[k..]))
  {
    hide Norm, Split;
    var e := q[..k];
    SplitPlain(e);
    SplitPlain("");
    NormOne(rooted, st, e, []);
    NormOne(rooted, Push(rooted, st, e), "", []);
    if k == |q| {
      assert e == q && q[k..] == "";
    } else {
      var rest := q[k + 1..];
      assert q == e + "/" + rest && q[k..] == "" + "/" + rest;
      SplitSlash(e, rest);
      SplitSlash("", rest);
      NormOne(rooted, st, e, Split(rest));
      NormOne(rooted, Push(rooted, st, e), "", Split(rest));
    }
  }

  lemma NormOne(rooted: bool, st: seq<string>, e: string, es: seq<string>)
    ensures Norm(rooted, st, [e] + es) == Norm(rooted, Push(rooted, st, e), es)
    ensures Norm(rooted, st, [e]) == Push(rooted, st, e)
  {
    assert ([e] + es)[1..] == es && [e][1..] == [];
  }

  lemma SpellPush(rooted: bool, st: seq<string>, e: string)
    ensures Spell(rooted, st + [e]) == Spell(rooted, st) + (if st == [] then "" else "/") + e
  {
    if st == [] {
      assert [] + [e] == [e];
    } else {
      JoinAppend(st, [e]);
    }
  }

  lemma SpellLength(rooted: bool, st: seq<string>)
    requires StackOk(rooted, st)
    ensures |Spell(rooted, st)| >= |Spell(rooted, [])| == if rooted then 1 else 0
    ensures st == [] <==> |Spell(rooted, st)| == |Spell(rooted, [])|
  {
    if st != [] {
      JoinStarts(st);
    }
  }

  lemma {:induction false} SpellGrows(rooted: bool, st: seq<string>, k: nat)
    requires StackOk(rooted, st) && k <= |st|
    ensures |Spell(rooted, st[..k])| <= |Spell(rooted, st)|
    ensures |Spell(rooted, st[..k])| == |Spell(rooted, st)| <==> k == |st|
  {
    if k == |st| {
      assert st[..k] == st;
    } else {
      var init := st[..|st| - 1];
      SpellPush(rooted, init, st[|st| - 1]);
      assert init + [st[|st| - 1]] == st && init[..k] == st[..k];
      InitOk(rooted, st);
      SpellGrows(rooted, init, k);
    }
  }

  lemma InitOk(rooted: bool, st: seq<string>)
    requires StackOk(rooted, st) && st != []
    ensures StackOk(rooted, st[..|st| - 1]) && st[|st| - 1] != "" && '/' !in st[|st| - 1]
  {
  }

  /** Pops the last element, and the separator in front of it, off the buffer. */
  method DropLast(out: FilePath, dotdot: nat, ghost rooted: bool, ghost st: seq<string>, ghost nd: nat)
    returns (o: FilePath)
    requires StackOk(rooted, st) && nd < |st| && out == Spell(rooted, st)
    requires dotdot == |Spell(rooted, st[..nd])|
    ensures o == Spell(rooted, st[..|st| - 1])
  {
    hide StackOk, Spell;
    ghost var init, e := st[..|st| - 1], st[|st| - 1];
    InitOk(rooted, st);
    assert init + [e] == st && init[..nd] == st[..nd];
    SpellPush(rooted, init, e);
    SpellGrows(rooted, init, nd);
    SpellGrows(rooted, st, nd);
    ghost var sep := if init == [] then "" else "/";
    ghost var start := |Spell(rooted, init) + sep|;
    assert init == [] ==> nd == 0 && st[..0] == init;
    assert init == [] ==> start == dotdot;
    assert init != [] ==> start > dotdot && out[start - 1] == '/';
    forall k | start <= k < |out| ensures out[k] != '/' {
      assert out[k] == e[k - start];
    }
    o := out[..|out| - 1];
    while |o| > dotdot && o[|o| - 1] != '/'
      invariant start <= |o| <= |out| && o == out[..|o|]
    {
      o := o[..|o| - 1];
    }
    assert |o| == start;
    if |o| > dotdot && o[|o| - 1] == '/' {
      o := o[..|o| - 1];
    }
  }

  /** The buffer spells the stack `st`, whose first `nd` elements, spelt in `dotdot` bytes, are the `..` ones. */
  ghost predicate Buffered(rooted: bool, out: FilePath, dotdot: nat, st: seq<string>, nd: nat) {
    && StackOk(rooted, st) && out == Spell(rooted, st)
    && nd <= |st| && dotdot == |Spell(rooted, st[..nd])|
    && forall k :: 0 <= k < |st| ==> (st[k] == ".." <==> k < nd)
  }

  lemma BufferedStart(rooted: bool)
    ensures Buffered(rooted, if rooted then "/" else "", if rooted then 1 else 0, [], 0)
  {
  }

  /** Consuming one element of the path pushes it on the stack. */
  lemma ScanElem(p: FilePath, r: nat, k: nat, st: seq<string>)
    requires r + k <= |p| && '/' !in p[r..r + k] && (r + k == |p| || p[r + k] == '/')
    requires Norm(Rooted(p), st, Split(p[r..])) == Stack(p)
    ensures Norm(Rooted(p), Push(Rooted(p), st, p[r..r + k]), Split(p[r + k..])) == Stack(p)
  {
    hide Norm;
    assert p[r..][k..] == p[r + k..] && p[r..][..k] == p[r..r + k];
    SplitElem(Rooted(p), st, p[r..], k);
  }

  lemma ScanSlash(p: FilePath, r: nat, st: seq<string>)
    requires r < |p| && p[r] == '/'
    requires Norm(Rooted(p), st, Split(p[r..])) == Stack(p)
    ensures Norm(Rooted(p), st, Split(p[r + 1..])) == Stack(p)
  {
    assert p[r..][1..] == p[r + 1..];
    NormOne(Rooted(p), st, "", Split(p[r + 1..]));
  }

  /** A `..` element: drop the last element, keep the `..`, or ignore it at the root. */
  method Up(out: FilePath, dotdot: nat, rooted: bool, ghost st: seq<string>, ghost nd: nat)
    returns (o: FilePath, d: nat, ghost n: nat)
    requires Buffered(rooted, out, dotdot, st, nd)
    ensures Buffered(rooted, o, d, Push(rooted, st, ".."), n)
  {
    hide Spell;
    o, d, n := out, dotdot, nd;
    SpellGrows(rooted, st, nd);
    PushOk(rooted, st, "..");
    if |out| > dotdot {
      o := DropLast(out, dotdot, rooted, st, nd);
      assert st[..|st| - 1][..nd] == st[..nd];
    } else if !rooted {
      assert nd == |st| && st[..nd] == st;
      SpellLength(rooted, st);
      SpellPush(rooted, st, "..");
      assert Spell(false, []) == "" by { SpellNone(); }
      if o != "" {
        o := o + "/";
      }
      o := o + "..";
      d := |o|;
      n := nd + 1;
      assert (st + [".."])[..n] == st + [".."];
    }
  }

  lemma SpellNone()
    ensures Spell(false, []) == ""
  {
  }

  /** An ordinary element: a separator unless it comes first, then its bytes. */
  method Down(out: FilePath, dotdot: nat, rooted: bool, e: string, ghost st: seq<string>, ghost nd: nat)
    returns (o: FilePath)
    requires Buffered(rooted, out, dotdot, st, nd) && Plain(e)
    ensures Buffered(rooted, o, dotdot, Push(rooted, st, e), nd)
  {
    hide Spell;
    o := out;
    SpellLength(rooted, st);
    SpellPush(rooted, st, e);
    PushOk(rooted, st, e);
    if (rooted && |o| != 1) || (!rooted && o != "") {
      o := o + "/";
    }
    o := o + e;
    assert (st + [e])[..nd] == st[..nd];
  }

  /** The end of the element that starts at `r`. */
  method ElemEnd(p: FilePath, r: nat) returns (k: nat)
    requires r <= |p|
    ensures r <= k <= |p| && '/' !in p[r..k] && (k == |p| || p[k] == '/')
  {
    k := r;
    while k < |p| && p[k] != '/'
      invariant r <= k <= |p| && '/' !in p[r..k]
    {
      k := k + 1;
    }
  }

  method CleanPath(p: FilePath) returns (c: FilePath)
    ensures c == Clean(p)
  {
    hide Norm, Split, Buffered, Stack, Spell;
    if p == "" {
      CleanNothing();
      return ".";
    }
    var n, rooted := |p|, p[0] == '/';
    var out, r, dotdot := "", 0, 0;
    ghost var st: seq<string>, nd: nat := [], 0;
    BufferedStart(rooted);
    StackStart(p);
    if rooted {
      out, r, dotdot := "/", 1, 1;
      ScanSlash(p, 0, st);
    }
    while r < n
      invariant r <= n && Buffered(rooted, out, dotdot, st, nd)
      invariant Norm(rooted, st, Split(p[r..])) == Stack(p)
      decreases n - r
    {
      if p[r] == '/' {
        ScanSlash(p, r, st);
        r := r + 1;
        continue;
      }
      if p[r] == '.' && (r + 1 == n || p[r + 1] == '/') {
        assert p[r..r + 1] == ".";
        ScanElem(p, r, 1, st);
        r := r + 1;
        continue;
      }
      if r + 1 < n && p[r] == '.' && p[r + 1] == '.' && (r + 2 == n || p[r + 2] == '/') {
        assert p[r..r + 2] == "..";
        ScanElem(p, r, 2, st);
        r := r + 2;
        out, dotdot, nd := Up(out, dotdot, rooted, st, nd);
        st := Push(rooted, st, "..");
        continue;
      }
      var k := ElemEnd(p, r);
      ElemPlain(p, r, k);
      ScanElem(p, r, k - r, st);
      out := Down(out, dotdot, rooted, p[r..k], st, nd);
      st := Push(rooted, st, p[r..k]);
      r := k;
    }
    ScanEnd(p, st);
    BufferedSpells(rooted, out, dotdot, st, nd);
    c := if out == "" then "." else out;
  }

  lemma CleanNothing()
    ensures Clean("") == "."
  {
    NormEmpty(false, []);
  }

  lemma StackStart(p: FilePath)
    ensures p[0..] == p && Norm(Rooted(p), [], Split(p[0..])) == Stack(p)
  {
    assert p[0..] == p;
  }

  lemma BufferedSpells(rooted: bool, out: FilePath, dotdot: nat, st: seq<string>, nd: nat)
    requires Buffered(rooted, out, dotdot, st, nd)
    ensures out == Spell(rooted, st)
  {
  }

  lemma ScanEnd(p: FilePath, st: seq<string>)
    requires Norm(Rooted(p), st, Split(p[|p|..])) == Stack(p)
    ensures st == Stack(p)
  {
    assert p[|p|..] == "";
    NormEmpty(Rooted(p), st);
  }

  lemma ElemPlain(p: FilePath, r: nat, k: nat)
    requires r < k <= |p| && '/' !in p[r..k] && (k == |p| || p[k] == '/')
    requires !(p[r] == '.' && (r + 1 == |p| || p[r + 1] == '/'))
    requires !(r + 1 < |p| && p[r] == '.' && p[r + 1] == '.' && (r + 2 == |p| || p[r + 2] == '/'))
    ensures Plain(p[r..k])
  {
    var e := p[r..k];
    assert e[0] == p[r] && |e| == k - r && (|e| > 1 ==> e[1] == p[r + 1]);
  }

  // ---------- Dir ----------

  method DirPath(p: FilePath) returns (d: FilePath)
    ensures d == DirOf(p)
  {
    hide Clean;
    var i: int := |p| - 1;
    assert p[..|p|] == p;
    while i >= 0 && p[i] != '/'
      invariant -1 <= i < |p|
      invariant DirEnd(p) == DirEnd(p[..i + 1])
      decreases i
    {
      assert p[..i + 1][..i] == p[..i];
      i := i - 1;
    }
    d := CleanPath(p[..i + 1]);
  }

  // ---------- Rel ----------

  /** The part a scan compares at position `i`; nothing behind the last. */
  ghost function Seg(s: seq<string>, i: nat): string {
    if i < |s| then s[i] else ""
  }

  ghost function Tail(s: seq<string>, i: nat): FilePath {
    if i < |s| then Join(s[i..]) else ""
  }

  /** The next part of a path, and where the scan stands behind it. */
  lemma SegAt(p: FilePath, from: nat, to: nat, s: seq<string>, i: nat)
    requires from <= to <= |p| && '/' !in p[from..to] && (to == |p| || p[to] == '/')
    requires forall k :: 0 <= k < |s| ==> '/' !in s[k]
    requires p[from..] == Tail(s, i)
    ensures p[from..to] == Seg(s, i)
    ensures i < |s| ==> p[if to < |p| then to + 1 else to..] == Tail(s, i + 1)
    ensures i >= |s| ==> to == from == |p|
  {
    if i < |s| {
      var e, rest := s[i], s[i + 1..];
      assert s[i..][1..] == rest;
      var q := p[from..];
      if rest != [] {
        assert q == e + "/" + Join(rest);
        FirstSlash(q, e, Join(rest), to - from);
        assert p[to + 1..] == q[to - from + 1..];
      } else {
        assert q == e;
        NoSlashEnd(q, to - from);
      }
    }
  }

  lemma FirstSlash(q: FilePath, e: string, rest: FilePath, k: nat)
    requires q == e + "/" + rest && '/' !in e
    requires k <= |q| && '/' !in q[..k] && (k == |q| || q[k] == '/')
    ensures k == |e| && k < |q| && q[..k] == e && q[k + 1..] == rest
  {
    assert q[|e|] == '/';
    forall j | 0 <= j < k ensures q[j] != '/' {
      assert q[j] == q[..k][j];
    }
    forall j | 0 <= j < |e| ensures q[j] != '/' {
      assert q[j] == e[j];
    }
  }

  lemma NoSlashEnd(q: FilePath, k: nat)
    requires '/' !in q && k <= |q| && (k == |q| || q[k] == '/')
    ensures k == |q| && q[..k] == q
  {
  }

  /** The parts of a cleaned path are not empty behind the first, except that of the root. */
  ghost predicate NoGap(s: seq<string>) {
    forall k :: 0 < k < |s| && s[k] == "" ==> s == ["", ""]
  }

  lemma CleanParts(p: FilePath)
    ensures var c := Clean(p);
            && NoGap(Split(c)) && NoGap(Split(NoDot(c)))
            && (forall k :: 0 <= k < |Split(NoDot(c))| ==> '/' !in Split(NoDot(c))[k])
            && (forall k :: 0 <= k < |Split(c)| ==> '/' !in Split(c)[k])
  {
    StackIsOk(p);
    SplitSpell(Rooted(p), Stack(p));
    SplitHasNoSlash(Clean(p));
    SplitHasNoSlash(NoDot(Clean(p)));
    SplitPlain(".");
  }

  /** Two different paths are told apart before either runs out. */
  lemma BothGoOn(bs: FilePath, targ: FilePath, i: nat)
    requires bs != targ && targ != "" && Rooted(bs) == Rooted(targ)
    requires var b, t := Split(bs), Split(targ);
             && NoGap(b) && NoGap(t) && i <= |b| && i <= |t| && b[..i] == t[..i]
             && Seg(b, i) == Seg(t, i)
    ensures i < |Split(bs)| && i < |Split(targ)|
  {
    var b, t := Split(bs), Split(targ);
    JoinSplit(bs);
    JoinSplit(targ);
    RootParts();
    assert b[..|b|] == b && t[..|t|] == t;
    assert b != t;
  }

  lemma RootParts()
    ensures ["", ""][..1] == [""] && Join([""]) == "" && Join(["", ""]) == "/"
  {
    assert ["", ""][1..] == [""];
  }

  lemma CommonIs(b: seq<string>, t: seq<string>, i: nat)
    requires i <= |b| && i <= |t| && b[..i] == t[..i]
    requires i == |b| || i == |t| || b[i] != t[i]
    ensures Common(b, t) == i
  {
    assert b == b[..i] + b[i..] && t == t[..i] + t[i..];
    CommonPrefix(b[..i], b[i..], t[i..]);
  }

  /** The separators of what is left of a base. */
  method CountSlashes(p: FilePath, from: nat, ghost s: seq<string>) returns (n: nat)
    requires from <= |p| && s != [] && p[from..] == Join(s)
    requires forall k :: 0 <= k < |s| ==> '/' !in s[k]
    ensures n == |s| - 1
  {
    n := 0;
    var k := from;
    assert SlashesIn(p[from..]) == |s| - 1 by { JoinSlashes(s); }
    while k < |p|
      invariant from <= k <= |p|
      invariant SlashesIn(p[from..]) == n + SlashesIn(p[k..])
    {
      assert p[k..][1..] == p[k + 1..];
      if p[k] == '/' {
        n := n + 1;
      }
      k := k + 1;
    }
  }

  ghost function SlashesIn(p: FilePath): nat {
    if p == "" then 0 else (if p[0] == '/' then 1 else 0) + SlashesIn(p[1..])
  }

  lemma {:induction false} SlashesAppend(a: FilePath, b: FilePath)
    ensures SlashesIn(a + b) == SlashesIn(a) + SlashesIn(b)
  {
    if a == "" {
      assert a + b == b;
    } else {
      assert (a + b)[1..] == a[1..] + b;
      SlashesAppend(a[1..], b);
    }
  }

  lemma {:induction false} NoSlashes(e: string)
    requires '/' !in e
    ensures SlashesIn(e) == 0
  {
    if e != "" {
      NoSlashes(e[1..]);
    }
  }

  lemma {:induction false} JoinSlashes(s: seq<string>)
    requires s != [] && forall k :: 0 <= k < |s| ==> '/' !in s[k]
    ensures SlashesIn(Join(s)) == |s| - 1
  {
    NoSlashes(s[0]);
    if |s| > 1 {
      JoinSlashes(s[1..]);
      SlashesAppend(s[0] + "/", Join(s[1..]));
      SlashesAppend(s[0], "/");
      assert "/"[1..] == "";
    }
  }

  /** `..` once, and once more for every separator. */
  method Climb(seps: nat) returns (buf: FilePath)
    ensures buf == Join(Ups(seps + 1))
  {
    buf := "..";
    assert Ups(1) == [".."];
    for k := 0 to seps
      invariant buf == Join(Ups(k + 1))
    {
      UpsLast(k + 1);
      JoinAppend(Ups(k + 1), [".."]);
      buf := buf + "/" + "..";
    }
  }

  lemma {:induction false} UpsLast(n: nat)
    ensures Ups(n + 1) == Ups(n) + [".."] && |Ups(n)| == n
  {
    if n > 0 {
      UpsLast(n - 1);
    }
  }

  method RelPath(basePath: FilePath, targPath: FilePath) returns (rel: Option<FilePath>)
    ensures rel == Rel(basePath, targPath)
  {
    hide Norm, Split, Join, Clean, RelFrom, Seg, Tail, Common;
    var base := CleanPath(basePath);
    var targ := CleanPath(targPath);
    if targ == base {
      return Some(".");
    }
    if base == "." {
      base := "";
    }
    if (base != "" && base[0] == '/') != (targ != "" && targ[0] == '/') {
      return None;
    }
    ghost var b, t, i: nat := Split(base), Split(targ), 0;
    CleanIdempotent(targPath);
    CleanParts(basePath);
    CleanParts(targPath);
    assert NoDot(targ) == "" ==> targ == ".";
    var b0, bi, t0, ti := 0, 0, 0, 0;
    TailStart(base);
    TailStart(targ);
    while true
      invariant i <= |b| && i <= |t| && b[..i] == t[..i]
      invariant b0 == bi <= |base| && t0 == ti <= |targ|
      invariant base[b0..] == Tail(b, i) && targ[t0..] == Tail(t, i)
      decreases |b| - i
    {
      bi := ElemEnd(base, bi);
      ti := ElemEnd(targ, ti);
      SegAt(base, b0, bi, b, i);
      SegAt(targ, t0, ti, t, i);
      if base[b0..bi] != targ[t0..ti] {
        break;
      }
      BothGoOn(base, targ, i);
      SegIs(b, i);
      SegIs(t, i);
      if bi < |base| {
        bi := bi + 1;
      }
      if ti < |targ| {
        ti := ti + 1;
      }
      b0, t0 := bi, ti;
      i := i + 1;
    }
    PartsDiffer(b, t, i);
    TailIs(b, i);
    TailIs(t, i);
    rel := FromParts(base, b0, bi, targ, t0, b[i..], t[i..]);
  }

  lemma TailStart(p: FilePath)
    ensures p[0..] == Tail(Split(p), 0)
  {
    JoinSplit(p);
    assert Split(p)[0..] == Split(p) && p[0..] == p;
  }

  lemma TailIs(s: seq<string>, i: nat)
    requires i <= |s|
    ensures Tail(s, i) == Join(s[i..]) && Seg(s, i) == if s[i..] == [] then "" else s[i..][0]
  {
  }

  lemma SegIs(s: seq<string>, i: nat)
    requires i < |s|
    ensures Seg(s, i) == s[i] && s[..i + 1] == s[..i] + [s[i]]
  {
  }

  lemma {:induction false} PartsDiffer(b: seq<string>, t: seq<string>, i: nat)
    requires i <= |b| && i <= |t| && b[..i] == t[..i] && Seg(b, i) != Seg(t, i)
    ensures Common(b, t) == i
  {
    CommonIs(b, t, i);
  }

  method FromParts(
      base: FilePath, b0: nat, bi: nat, targ: FilePath, t0: nat, ghost b: seq<string>, ghost t: seq<string>)
    returns (rel: Option<FilePath>)
    requires b0 <= bi <= |base| && t0 <= |targ|
    requires base[b0..] == Join(b) && targ[t0..] == Join(t) && base[b0..bi] == (if b == [] then "" else b[0])
    requires forall k :: 0 <= k < |b| ==> '/' !in b[k]
    ensures rel == RelFrom(b, t)
  {
    if base[b0..bi] == ".." {
      return None;
    }
    if b0 != |base| {
      assert Join(b) != "" && b != [];
      var seps := CountSlashes(base, b0, b);
      var buf := Climb(seps);
      UpsLast(|b|);
      if t0 != |targ| {
        assert Join(t) != "" && t != [];
        JoinAppend(Ups(|b|), t);
        buf := buf + "/" + targ[t0..];
      } else {
        assert Join(t) == "" && Ups(|b|) + [] == Ups(|b|);
      }
      var c := CleanPath(buf);
      return Some(c);
    }
    rel := Some(targ[t0..]);
  }
}
