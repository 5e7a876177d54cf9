/** The shell's path canonicaliser: drop "." and empty segments, pop on "..", within fixed
    limits of 32 segments and a 128-byte buffer. */
module PathCanon {

  const MAX_SEGS := 32
  const OUT_SIZE := 128

  type Segs = seq<string>

  // ---- segments of a path ----

  /** Length of the leading run without a slash. */
  function End(s: string): (e: nat)
    ensures e <= |s| && '/' !in s[..e] && (e < |s| ==> s[e] == '/')
    ensures s != [] && s[0] != '/' ==> e > 0
  {
    if s == [] || s[0] == '/' then 0 else
    assert s[1..][..End(s[1..])] == s[1..1 + End(s[1..])];
    1 + End(s[1..])
  }

  /** The non-empty runs between slashes. */
  function Segments(s: string): (r: Segs)
    ensures forall t :: t in r ==> t != [] && '/' !in t
    decreases |s|
  {
    if s == [] then []
    else if s[0] == '/' then Segments(s[1..])
    else [s[..End(s)]] + Segments(s[End(s)..])
  }

  lemma EndUnique(s: string, e: nat)
    requires e <= |s| && '/' !in s[..e] && (e < |s| ==> s[e] == '/')
    ensures End(s) == e
  {
  }

  lemma FirstSegment(s: string, e: nat)
    requires 0 < e <= |s| && '/' !in s[..e] && (e < |s| ==> s[e] == '/')
    ensures Segments(s) == [s[..e]] + Segments(s[e..])
  {
    EndUnique(s, e);
    assert s[..e][0] == s[0];
  }

  lemma SkipSlash(s: string)
    requires s != [] && s[0] == '/'
    ensures Segments(s) == Segments(s[1..])
  {
  }

  lemma NoSegments()
    ensures Segments([]) == []
  {
  }

  /** Cutting a joined path inside its first part. */
  lemma CutJoined(x: string, y: string, e: nat)
    requires e <= |x|
    ensures (x + "/" + y)[..e] == x[..e] && (x + "/" + y)[e..] == x[e..] + "/" + y
  {
  }

  lemma {:induction false} SegmentsJoin(x: string, y: string)
    ensures Segments(x + "/" + y) == Segments(x) + Segments(y)
    decreases |x|
  {
    hide Segments, End;
    var s := x + "/" + y;
    if x == [] {
      NoSegments();
      SkipSlash(s);
      assert s[1..] == y;
    } else if x[0] == '/' {
      SkipSlash(s);
      SkipSlash(x);
      CutJoined(x, y, 1);
      SegmentsJoin(x[1..], y);
    } else {
      var e := End(x);
      CutJoined(x, y, e);
      SegmentsJoin(x[e..], y);
      FirstSegment(s, e);
      FirstSegment(x, e);
    }
  }

  lemma SegmentOne(t: string)
    requires t != [] && '/' !in t
    ensures Segments(t) == [t]
  {
    assert t[..|t|] == t;
    EndUnique(t, |t|);
    assert t[0] in t;
    assert t[|t|..] == [];
  }

  // ---- normalisation with limits ----

  /** Bytes of the output buffer taken by a stack, trailing slash included. */
  function Width(st: Segs): (w: nat)
    ensures w >= 1
  {
    if st == [] then 1 else Width(st[..|st| - 1]) + |st[|st| - 1]| + 1
  }

  datatype Walk = Walk(st: Segs, stopped: bool)

  function Pop(st: Segs): Segs {
    if st == [] then [] else st[..|st| - 1]
  }

  /** One segment of the input; after a limit is hit nothing more is looked at. */
  function Push(w: Walk, seg: string): Walk {
    if w.stopped || seg == "." then w
    else if seg == ".." then w.(st := Pop(w.st))
    else if |w.st| >= MAX_SEGS || Width(w.st) + |seg| + 2 >= OUT_SIZE then w.(stopped := true)
    else w.(st := w.st + [seg])
  }

  function Fold(w: Walk, segs: Segs): Walk
    decreases |segs|
  {
    if segs == [] then w else Fold(Push(w, segs[0]), segs[1..])
  }

  const EMPTY := Walk([], false)

  function WalkOf(s: string): Walk { Fold(EMPTY, Segments(s)) }

  /** The buffer before the trailing slash is dropped. */
  function Built(st: Segs): (b: string)
    ensures |b| == Width(st) && b[0] == '/' && b[|b| - 1] == '/'
  {
    if st == [] then "/" else Built(st[..|st| - 1]) + st[|st| - 1] + "/"
  }

  function Render(st: Segs): string {
    if st == [] then "/" else Built(st)[..Width(st) - 1]
  }

  function Canon(s: string): string {
    if s == [] || s[0] != '/' then s else Render(WalkOf(s).st)
  }

  // ---- the unlimited reference ----

  predicate Name(t: string) { t != [] && '/' !in t && t != "." && t != ".." }

  function Enter(st: Segs, t: string): Segs {
    if t == "." then st else if t == ".." then Pop(st) else st + [t]
  }

  function Norm(segs: Segs): Segs {
    if segs == [] then [] else Enter(Norm(segs[..|segs| - 1]), segs[|segs| - 1])
  }

  /** More than 32 segments, or a text of more than 125 characters. */
  predicate Over(st: Segs) { |st| > 32 || Width(st) >= 127 }

  lemma {:induction false} FoldConcat(w: Walk, xs: Segs, ys: Segs)
    ensures Fold(w, xs + ys) == Fold(Fold(w, xs), ys)
    decreases |xs|
  {
    if xs == [] {
      assert xs + ys == ys;
    } else {
      assert (xs + ys)[1..] == xs[1..] + ys;
      FoldConcat(Push(w, xs[0]), xs[1..], ys);
    }
  }

  lemma {:induction false} FoldStopped(w: Walk, xs: Segs)
    requires w.stopped
    ensures Fold(w, xs) == w
    decreases |xs|
  {
    if xs != [] { FoldStopped(w, xs[1..]); }
  }

  lemma FoldSnoc(segs: Segs, k: nat)
    requires k < |segs|
    ensures Fold(EMPTY, segs[..k + 1]) == Push(Fold(EMPTY, segs[..k]), segs[k])
    ensures Norm(segs[..k + 1]) == Enter(Norm(segs[..k]), segs[k])
  {
    assert segs[..k + 1] == segs[..k] + [segs[k]];
    assert segs[..k + 1][..k] == segs[..k];
    FoldConcat(EMPTY, segs[..k], [segs[k]]);
    var w := Fold(EMPTY, segs[..k]);
    assert Fold(w, [segs[k]]) == Fold(Push(w, segs[k]), [segs[k]][1..]) == Fold(Push(w, segs[k]), []);
  }

  lemma WidthPush(st: Segs, t: string)
    ensures Width(st + [t]) == Width(st) + |t| + 1
    ensures Width(Pop(st)) <= Width(st)
  {
    assert (st + [t])[..|st|] == st;
  }

  /** A limit stops the walk exactly when the next normal form would break it. */
  lemma PushStops(w: Walk, t: string)
    requires !w.stopped && !Over(w.st)
    ensures Push(w, t).stopped <==> Over(Enter(w.st, t))
    ensures !Push(w, t).stopped ==> Push(w, t).st == Enter(w.st, t)
    ensures !Over(Push(w, t).st)
  {
    WidthPush(w.st, t);
  }

  ghost predicate EverOver(segs: Segs, k: nat)
    requires k <= |segs|
  {
    exists j :: 0 <= j <= k && Over(Norm(segs[..j]))
  }

  lemma EverStep(segs: Segs, k: nat)
    requires k < |segs|
    ensures EverOver(segs, k + 1) <==> EverOver(segs, k) || Over(Norm(segs[..k + 1]))
  {
    hide Over, Norm;
  }

  lemma WalkStarts(segs: Segs)
    ensures Fold(EMPTY, segs[..0]) == EMPTY && Norm(segs[..0]) == [] && !Over([])
    ensures !EverOver(segs, 0)
  {
    assert segs[..0] == [];
    assert Norm([]) == [];
    assert Width([]) <= 1;
    hide Norm;
  }

  /** Up to the first prefix whose normal form breaks a limit, the walk is the reference;
      from that prefix on it stays where it was. */
  lemma {:induction false} WalkIsNorm(segs: Segs, k: nat)
    requires k <= |segs|
    ensures var w := Fold(EMPTY, segs[..k]);
            && (w.stopped <==> EverOver(segs, k))
            && (!w.stopped ==> w.st == Norm(segs[..k]))
            && !Over(w.st)
    decreases k
  {
    hide Over, Norm, Fold, Push, Enter, EverOver;
    if k == 0 {
      WalkStarts(segs);
    } else {
      WalkIsNorm(segs, k - 1);
      FoldSnoc(segs, k - 1);
      EverStep(segs, k - 1);
      var w, t := Fold(EMPTY, segs[..k - 1]), segs[k - 1];
      if w.stopped {
        FoldStopped(w, [t]);
        OnePush(w, t);
      } else {
        PushStops(w, t);
      }
    }
  }

  /** The limits are hit exactly when some prefix of the path normalises to more than 32
      segments or to more than 125 characters; otherwise the result is the stack
      normalisation. */
  lemma WithinLimitsIff(s: string)
    ensures WalkOf(s).stopped <==> EverOver(Segments(s), |Segments(s)|)
    ensures !WalkOf(s).stopped ==> WalkOf(s).st == Norm(Segments(s))
    ensures !Over(WalkOf(s).st)
  {
    WalkIsNorm(Segments(s), |Segments(s)|);
    assert Segments(s)[..|Segments(s)|] == Segments(s);
  }

  // ---- shape of the result ----

  ghost predicate Names(st: Segs) { forall t :: t in st ==> Name(t) }

  lemma {:induction false} FoldNames(w: Walk, segs: Segs)
    requires Names(w.st) && forall t :: t in segs ==> t != [] && '/' !in t
    ensures Names(Fold(w, segs).st)
    decreases |segs|
  {
    if segs != [] {
      assert segs[0] in segs;
      FoldNames(Push(w, segs[0]), segs[1..]);
    }
  }

  lemma {:induction false} SegmentsBuilt(st: Segs)
    requires Names(st)
    ensures Segments(Built(st)) == st
    decreases |st|
  {
    if st == [] {
      assert "/"[1..] == [];
    } else {
      var r, t := st[..|st| - 1], st[|st| - 1];
      assert Name(t) by { assert t in st; }
      SegmentsBuilt(r);
      BuiltMore(r, t);
      assert r + [t] == st;
      SegmentsMore(Built(r)[..Width(r) - 1], t);
    }
  }

  lemma SegmentsMore(b: string, t: string)
    requires t != [] && '/' !in t
    ensures Segments(b + "/" + t + "/") == Segments(b + "/") + [t]
  {
    hide Segments;
    SegmentOne(t);
    SegmentsTrail(b);
    SegmentsJoin(b, t);
    SegmentsTrail(b + "/" + t);
  }

  lemma SegmentsTrail(s: string)
    ensures Segments(s + "/") == Segments(s)
  {
    SegmentsJoin(s, "");
    assert s + "/" + "" == s + "/";
  }

  lemma BuiltMore(r: Segs, t: string)
    ensures Built(r) == Built(r)[..Width(r) - 1] + "/"
    ensures Built(r + [t]) == Built(r)[..Width(r) - 1] + "/" + t + "/"
  {
    assert (r + [t])[..|r|] == r;
  }

  lemma BuiltSlash(st: Segs)
    ensures Built(st) == Built(st)[..Width(st) - 1] + "/"
  {
  }

  /** The segments of the result are the stack: no empty, "." or ".." segment survives. */
  lemma SegmentsRender(st: Segs)
    requires Names(st)
    ensures Segments(Render(st)) == st
  {
    SegmentsBuilt(st);
    BuiltSlash(st);
    if st != [] {
      SegmentsJoin(Render(st), "");
      assert Render(st) + "/" + "" == Built(st);
      assert Segments("") == [];
    }
  }

  lemma CanonShape(s: string)
    requires s != [] && s[0] == '/'
    ensures Canon(s) != [] && Canon(s)[0] == '/' && Names(Segments(Canon(s)))
    ensures Canon(s) == "/" || Canon(s)[|Canon(s)| - 1] != '/'
    ensures Segments(Canon(s)) == WalkOf(s).st && Canon(s) == Render(Segments(Canon(s)))
  {
    var st := WalkOf(s).st;
    FoldNames(EMPTY, Segments(s));
    SegmentsRender(st);
    if st != [] {
      var t := st[|st| - 1];
      assert Name(t) by { assert t in st; }
      assert Built(st) == Built(st[..|st| - 1]) + t + "/";
      assert Canon(s)[|Canon(s)| - 1] == t[|t| - 1];
      assert t[|t| - 1] in t;
    }
  }

  // ---- length ----

  function Total(segs: Segs): nat {
    if segs == [] then 0 else |segs[0]| + 1 + Total(segs[1..])
  }

  lemma {:induction false} SegmentsTotal(s: string)
    ensures Total(Segments(s)) <= |s| + 1
    ensures s != [] && s[0] == '/' ==> Total(Segments(s)) <= |s|
    decreases |s|
  {
    if s != [] && s[0] == '/' {
      SegmentsTotal(s[1..]);
    } else if s != [] {
      SegmentsTotal(s[End(s)..]);
    }
  }

  lemma {:induction false} FoldWidth(w: Walk, segs: Segs)
    ensures Width(Fold(w, segs).st) <= Width(w.st) + Total(segs)
    decreases |segs|
  {
    if segs != [] {
      WidthPush(w.st, segs[0]);
      FoldWidth(Push(w, segs[0]), segs[1..]);
    }
  }

  lemma NeverLonger(s: string)
    ensures |Canon(s)| <= |s|
  {
    if s != [] && s[0] == '/' {
      SegmentsTotal(s);
      FoldWidth(EMPTY, Segments(s));
    }
  }

  // ---- idempotence and composition ----

  /** A stack of names within the limits is rebuilt by walking it. */
  lemma {:induction false} FoldOwn(st: Segs, k: nat)
    requires Names(st) && !Over(st) && k <= |st|
    ensures Fold(EMPTY, st[..k]) == Walk(st[..k], false)
    decreases k
  {
    hide Fold, Norm, Width, Enter;
    if k == 0 {
      WalkStarts(st);
    } else {
      FoldOwn(st, k - 1);
      FoldSnoc(st, k - 1);
      PrefixWidth(st, k);
      WidthPush(st[..k - 1], st[k - 1]);
      assert st[..k] == st[..k - 1] + [st[k - 1]];
      assert Name(st[k - 1]) by { assert st[k - 1] in st; }
    }
  }

  lemma {:induction false} PrefixWidth(st: Segs, k: nat)
    requires k <= |st|
    ensures Width(st[..k]) <= Width(st)
    decreases |st|
  {
    if k < |st| {
      PrefixWidth(st[..|st| - 1], k);
      assert st[..|st| - 1][..k] == st[..k];
    } else {
      assert st[..k] == st;
    }
  }

  /** Walking a canonical path rebuilds its stack without touching a limit. */
  lemma WalkCanon(s: string)
    requires s != [] && s[0] == '/'
    ensures WalkOf(Canon(s)) == Walk(WalkOf(s).st, false)
  {
    hide Over;
    var st := WalkOf(s).st;
    CanonShape(s);
    WithinLimitsIff(s);
    FoldOwn(st, |st|);
    assert st[..|st|] == st;
  }

  lemma Idempotent(s: string)
    ensures Canon(Canon(s)) == Canon(s)
  {
    if s != [] && s[0] == '/' {
      CanonShape(s);
      WalkCanon(s);
    }
  }

  lemma WalkJoin(a: string, b: string)
    ensures WalkOf(a + "/" + b) == Fold(WalkOf(a), Segments(b))
  {
    SegmentsJoin(a, b);
    FoldConcat(EMPTY, Segments(a), Segments(b));
  }

  lemma Composes(a: string, b: string)
    requires a != [] && a[0] == '/' && !WalkOf(a).stopped
    ensures Canon(Canon(a) + "/" + b) == Canon(a + "/" + b)
  {
    CanonShape(a);
    WalkJoin(a, b);
    WalkJoin(Canon(a), b);
    WalkCanon(a);
  }

  lemma OneSegment(a: string, t: string)
    requires t != [] && '/' !in t
    ensures WalkOf(a + "/" + t) == Push(WalkOf(a), t)
  {
    hide Segments, Push;
    WalkJoin(a, t);
    SegmentOne(t);
    OnePush(WalkOf(a), t);
  }

  /** "." names the directory itself. */
  lemma DotIsSelf(a: string)
    requires a != [] && a[0] == '/'
    ensures Canon(a + "/" + ".") == Canon(a)
  {
    hide Segments, Fold, Render;
    OneSegment(a, ".");
  }

  /** A name within the limits is appended to the canonical text. */
  lemma ChildIs(a: string, t: string)
    requires a != [] && a[0] == '/' && Name(t) && !WalkOf(a + "/" + t).stopped
    ensures Canon(a + "/" + t) == if Canon(a) == "/" then "/" + t else Canon(a) + "/" + t
  {
    hide Segments, Fold, WalkOf, Render;
    OneSegment(a, t);
    RootIff(a);
    RenderSnoc(WalkOf(a).st, t);
  }

  lemma RootIff(a: string)
    requires a != [] && a[0] == '/'
    ensures Canon(a) == "/" <==> WalkOf(a).st == []
  {
    hide Canon, WalkOf, Segments;
    CanonShape(a);
    RootSegments();
    assert WalkOf(a).st == [] ==> Canon(a) == Render([]);
  }

  lemma RootSegments()
    ensures Segments("/") == []
  {
    SkipSlash("/");
    assert "/"[1..] == [];
  }

  lemma RenderSnoc(st: Segs, t: string)
    ensures Render(st + [t]) == if st == [] then "/" + t else Render(st) + "/" + t
  {
    assert (st + [t])[..|st|] == st;
    assert Built(st + [t]) == Built(st) + t + "/";
    assert Built(st + [t])[..Width(st + [t]) - 1] == Built(st) + t;
    if st != [] {
      assert Built(st) == Render(st) + "/";
    }
  }

  /** "..": back from a child to its parent, and nowhere from the root. */
  lemma ParentOfChild(a: string, t: string)
    requires a != [] && a[0] == '/' && Name(t) && !WalkOf(a + "/" + t).stopped
    ensures Canon(a + "/" + t + "/" + "..") == Canon(a)
  {
    hide Segments, Fold, WalkOf, Render;
    OneSegment(a, t);
    OneSegment(a + "/" + t, "..");
    var st := WalkOf(a).st;
    assert (st + [t])[..|st|] == st;
  }

  lemma RootCanon()
    ensures Canon("/") == "/"
  {
    RootSegments();
  }

  lemma ParentOfRoot(a: string)
    requires a != [] && a[0] == '/' && Canon(a) == "/"
    ensures Canon("/") == "/" && Canon(a + "/" + "..") == "/"
  {
    hide Fold, Segments, WalkOf;
    RootIff(a);
    OneSegment(a, "..");
    RootCanon();
  }

  /** A path that hits a limit ignores whatever is appended. */
  lemma StoppedIgnores(a: string, b: string)
    requires a != [] && a[0] == '/' && WalkOf(a).stopped
    ensures Canon(a + "/" + b) == Canon(a)
  {
    WalkJoin(a, b);
    FoldStopped(WalkOf(a), Segments(b));
  }

  /** Canonicalising the first part first makes no difference for any second part exactly
      when the first part stays within the limits. */
  lemma ComposesIff(a: string)
    requires a != [] && a[0] == '/'
    ensures (forall b :: Canon(Canon(a) + "/" + b) == Canon(a + "/" + b)) <==> !WalkOf(a).stopped
  {
    hide Canon, WalkOf, Render, Segments;
    if WalkOf(a).stopped {
      Differs(a);
    } else {
      forall b ensures Canon(Canon(a) + "/" + b) == Canon(a + "/" + b) {
        Composes(a, b);
      }
    }
  }

  lemma Differs(a: string)
    requires a != [] && a[0] == '/' && WalkOf(a).stopped
    ensures exists b :: Canon(Canon(a) + "/" + b) != Canon(a + "/" + b)
  {
    hide Canon, WalkOf, Render;
    var b := if WalkOf(a).st == [] then "x" else "..";
    StoppedIgnores(a, b);
    OneMore(a, b);
    CanonRender(a);
    Moves(WalkOf(a).st, b);
    assert Canon(Canon(a) + "/" + b) != Canon(a + "/" + b);
  }

  lemma CanonRender(a: string)
    requires a != [] && a[0] == '/'
    ensures Canon(a) == Render(WalkOf(a).st) && Names(WalkOf(a).st)
  {
    hide WalkOf, Render, Segments;
    CanonShape(a);
  }

  /** Canonicalising and then appending one segment. */
  lemma OneMore(a: string, b: string)
    requires a != [] && a[0] == '/' && b != [] && '/' !in b
    ensures Canon(Canon(a) + "/" + b) == Render(Push(Walk(WalkOf(a).st, false), b).st)
  {
    hide Render, Push, Names;
    CanonShape(a);
    WalkJoin(Canon(a), b);
    WalkCanon(a);
    SegmentOne(b);
    OnePush(Walk(WalkOf(a).st, false), b);
  }

  /** One more name on an empty stack, or one segment popped, shows in the result. */
  lemma Moves(st: Segs, b: string)
    requires Names(st) && b == if st == [] then "x" else ".."
    ensures Render(Push(Walk(st, false), b).st) != Render(st)
  {
    hide Render, Names;
    RenderShrinks(st);
    assert st == [] ==> st + ["x"] == ["x"];
  }

  /** A name of `n` characters. */
  function LongName(n: nat): (t: string)
    ensures |t| == n && '/' !in t
  {
    seq(n, _ => 'a')
  }

  /** One name of 125 characters already hits the buffer limit: the path is cut to "/", and
      appending "x" is lost, though it is not after canonicalising first. */
  lemma LongNameCase()
    ensures var a := "/" + LongName(125);
            && WalkOf(a) == Walk([], true) && Canon(a) == "/"
            && Canon(a + "/" + "x") == "/" && Canon(Canon(a) + "/" + "x") == "/x"
  {
    hide Segments, WalkOf, Render, LongName;
    var t := LongName(125);
    NameWalk(t);
    LeadingSlash(t);
    RenderShort();
    StoppedIgnores("/" + t, "x");
    NameWalk("x");
    LeadingSlash("x");
    LeadingSlash("/x");
    assert "/" + "/" + "x" == "/" + "/x" && "/" + "x" == "/x";
    assert Push(EMPTY, t) == Walk([], true);
    assert Push(EMPTY, "x") == Walk(["x"], false) by { assert [] + ["x"] == ["x"]; }
  }

  lemma LeadingSlash(s: string)
    ensures WalkOf("/" + s) == WalkOf(s)
  {
    assert ("/" + s)[1..] == s;
  }

  lemma NameWalk(t: string)
    requires t != [] && '/' !in t
    ensures WalkOf(t) == Push(EMPTY, t)
  {
    SegmentOne(t);
    OnePush(EMPTY, t);
  }

  lemma RenderShort()
    ensures Render([]) == "/" && Render(["x"]) == "/x"
  {
    assert ["x"][..0] == [];
    assert Built(["x"]) == "/x/";
  }

  lemma OnePush(w: Walk, t: string)
    ensures Fold(w, [t]) == Push(w, t)
  {
    assert [t][1..] == [];
  }

  lemma RenderShrinks(st: Segs)
    ensures st == [] ==> |Render(["x"])| == 2 && |Render(st)| == 1 && Width(st) == 1
    ensures st != [] && Names(st) ==> |Render(Pop(st))| < |Render(st)|
  {
    if st != [] {
      var r, t := Pop(st), st[|st| - 1];
      assert Width(st) == Width(r) + |t| + 1;
      assert t in st;
      assert r == [] ==> Width(r) == 1;
    } else {
      assert ["x"][..0] == [];
    }
  }

  // ---- in place ----

  /** The buffers hold the stack: `out` its text, `starts` where each segment begins. */
  ghost predicate Holds(out: seq<char>, starts: seq<nat>, nseg: nat, o: nat, st: Segs) {
    && |out| == OUT_SIZE && |starts| == MAX_SEGS && nseg == |st| <= MAX_SEGS
    && o == Width(st) < OUT_SIZE && out[..o] == Built(st)
    && forall k :: 0 <= k < nseg ==> starts[k] == Width(st[..k])
  }

  lemma HoldsPop(out: seq<char>, starts: seq<nat>, nseg: nat, o: nat, st: Segs)
    requires Holds(out, starts, nseg, o, st) && nseg > 0
    ensures Holds(out, starts, nseg - 1, starts[nseg - 1], Pop(st))
  {
    var r := Pop(st);
    WidthPush(r, st[nseg - 1]);
    assert r + [st[nseg - 1]] == st;
    assert starts[nseg - 1] == Width(r);
    assert out[..Width(r)] == out[..o][..Width(r)];
    forall k | 0 <= k < nseg - 1 ensures starts[k] == Width(r[..k]) {
      assert r[..k] == st[..k];
    }
  }

  lemma HoldsPush(out: seq<char>, starts: seq<nat>, out': seq<char>, nseg: nat, o: nat, st: Segs, t: string)
    requires Holds(out, starts, nseg, o, st) && nseg < MAX_SEGS && o + |t| + 2 < OUT_SIZE
    requires |out'| == OUT_SIZE && out'[..o + |t| + 1] == out[..o] + t + "/"
    ensures Holds(out', starts[nseg := o], nseg + 1, o + |t| + 1, st + [t])
  {
    WidthPush(st, t);
    assert (st + [t])[..nseg] == st;
    assert Built(st + [t]) == Built(st) + t + "/";
    forall k | 0 <= k < nseg + 1 ensures starts[nseg := o][k] == Width((st + [t])[..k]) {
      assert (st + [t])[..k] == st[..k];
      assert st[..nseg] == st;
    }
  }

  /** Copy a segment and a slash to the end of the output. */
  method Append(p: array<char>, start: nat, len: nat, out: array<char>, o: nat)
    requires start + len <= p.Length && out.Length == OUT_SIZE && o + len + 2 < OUT_SIZE && out != p
    modifies out
    ensures out[..o + len + 1] == old(out[..o]) + p[start..start + len] + "/"
  {
    var k := 0;
    while k < len
      invariant k <= len && out[..o + k] == old(out[..o]) + p[start..start + k]
    {
      out[o + k] := p[start + k];
      k := k + 1;
    }
    out[o + len] := '/';
  }

  /** Scan one segment: the index of the slash or terminator after `start`. */
  method Scan(p: array<char>, start: nat, ghost n: nat) returns (i: nat)
    requires start < n < p.Length && p[n] == '\0' && '\0' !in p[..n] && p[start] != '/'
    ensures start < i <= n
    ensures Segments(p[start..n]) == [p[start..i]] + Segments(p[i..n])
  {
    i := start;
    while p[i] != '\0' && p[i] != '/'
      invariant start <= i <= n && '/' !in p[start..i]
      decreases n - i
    {
      assert i < n;
      i := i + 1;
    }
    assert i < n ==> p[i] in p[..n];
    var s, e := p[start..n], i - start;
    assert s[..e] == p[start..i] && s[e..] == p[i..n];
    EndUnique(s, e);
  }

  /** Skip the slashes at `from`. */
  method Skip(p: array<char>, from: nat, ghost n: nat) returns (i: nat)
    requires from <= n < p.Length && p[n] == '\0'
    ensures from <= i <= n && p[i] != '/' && Segments(p[i..n]) == Segments(p[from..n])
  {
    hide Segments;
    i := from;
    while p[i] == '/'
      invariant from <= i <= n && Segments(p[i..n]) == Segments(p[from..n])
      decreases n - i
    {
      assert p[i..n][1..] == p[i + 1..n];
      SkipSlash(p[i..n]);
      i := i + 1;
    }
  }

  /** Handle the segment p[start..start + len]: skip it, pop, push, or stop at a limit. */
  method TakeSegment(p: array<char>, start: nat, len: nat, out: array<char>, starts: array<nat>,
                     nseg: nat, o: nat, ghost st: Segs) returns (nseg': nat, o': nat, stop: bool, ghost st': Segs)
    requires start + len <= p.Length && out != p && Holds(out[..], starts[..], nseg, o, st)
    modifies out, starts
    ensures Holds(out[..], starts[..], nseg', o', st')
    ensures Walk(st', stop) == Push(Walk(st, false), p[start..start + len])
  {
    hide Built, Width, Holds;
    nseg', o', stop, st' := nseg, o, false, st;
    ghost var seg := p[start..start + len];
    HoldsBounds(out[..], starts[..], nseg, o, st);
    if len == 1 && p[start] == '.' {
      assert seg == ".";
    } else if len == 2 && p[start] == '.' && p[start + 1] == '.' {
      assert seg == "..";
      if nseg > 0 {
        HoldsPop(out[..], starts[..], nseg, o, st);
        nseg' := nseg - 1;
        o' := starts[nseg'];
        st' := Pop(st);
      }
    } else {
      assert |seg| == len && (len == 1 ==> seg[0] != '.') && (len == 2 ==> seg[0] != '.' || seg[1] != '.');
      if nseg >= MAX_SEGS || o + len + 2 >= OUT_SIZE {
        stop := true;
      } else {
        ghost var out0, starts0 := out[..], starts[..];
        starts[nseg] := o;
        Append(p, start, len, out, o);
        assert starts[..] == starts0[nseg := o];
        HoldsPush(out0, starts0, out[..], nseg, o, st, seg);
        nseg', o', st' := nseg + 1, o + len + 1, st + [seg];
      }
    }
  }

  /** The main loop of path_canon: fill `out` with the stack of the whole path. */
  method Collect(p: array<char>, ghost n: nat, out: array<char>, starts: array<nat>) returns (o: nat)
    requires 0 < n < p.Length && p[n] == '\0' && '\0' !in p[..n] && p[0] == '/'
    requires out.Length == OUT_SIZE && starts.Length == MAX_SEGS && out != p && out[0] == '/'
    modifies out, starts
    ensures Holds(out[..], starts[..], |WalkOf(p[..n]).st|, o, WalkOf(p[..n]).st)
  {
    hide Push;
    var nseg, i, stop := 0, 1, false;
    o := 1;
    ghost var st: Segs := [];
    assert p[..n][1..] == p[1..n];
    assert out[..1] == "/";
    HoldsBounds(out[..], starts[..], nseg, o, st);
    while true
      invariant 1 <= i <= n && Holds(out[..], starts[..], nseg, o, st) && nseg == |st|
      invariant WalkOf(p[..n]) == Fold(Walk(st, false), Segments(p[i..n]))
      decreases n - i
    {
      hide Segments, Built, Width, Holds, WalkOf, Fold;
      i := Skip(p, i, n);
      if p[i] == '\0' {
        assert i == n;
        assert p[i..n] == [];
        NothingLeft(Walk(st, false));
        break;
      }
      var start := i;
      i := Scan(p, start, n);
      FoldCons(Walk(st, false), p[start..i], Segments(p[i..n]));
      nseg, o, stop, st := TakeSegment(p, start, i - start, out, starts, nseg, o, st);
      HoldsBounds(out[..], starts[..], nseg, o, st);
      if stop {
        FoldStopped(Walk(st, true), Segments(p[i..n]));
        break;
      }
    }
  }

  lemma NothingLeft(w: Walk)
    ensures Fold(w, Segments("")) == w
  {
  }

  lemma FoldCons(w: Walk, t: string, rest: Segs)
    ensures Fold(w, [t] + rest) == Fold(Push(w, t), rest)
  {
    assert ([t] + rest)[1..] == rest;
  }

  lemma HoldsBounds(out: seq<char>, starts: seq<nat>, nseg: nat, o: nat, st: Segs)
    requires Holds(out, starts, nseg, o, st)
    ensures nseg == |st| <= MAX_SEGS == |starts| && o == Width(st) < OUT_SIZE == |out|
  {
  }

  method CopyBack(p: array<char>, out: array<char>, o: nat)
    requires o < p.Length && o < out.Length && p != out
    modifies p
    ensures p[..o + 1] == out[..o + 1] && p[o + 1..] == old(p[o + 1..])
  {
    var k := 0;
    while k <= o
      invariant k <= o + 1 && p[..k] == out[..k] && p[k..] == old(p[k..])
    {
      p[k] := out[k];
      k := k + 1;
    }
  }

  /** path_canon: the string at `p` becomes its canonical form, terminated, in place. */
  method PathCanonical(p: array<char>, ghost n: nat)
    requires n < p.Length && p[n] == '\0' && '\0' !in p[..n]
    modifies p
    ensures var c := Canon(old(p[..n]));
            |c| <= n && p[..|c| + 1] == c + ['\0'] && p[|c| + 1..] == old(p[|c| + 1..])
  {
    hide Segments, WalkOf;
    ghost var text := p[..n];
    NeverLonger(text);
    if p[0] != '/' {
      assert p[..n + 1] == text + ['\0'];
      return;
    }
    var out := new char[OUT_SIZE](_ => '/');
    var starts := new nat[MAX_SEGS](_ => 0);
    assert n > 0;
    var o := Collect(p, n, out, starts);
    Trimmed(out[..], starts[..], o, WalkOf(text).st);
    hide Holds, Render;
    Finish(p, out, o, Canon(text));
  }

  /** Drop the trailing slash, terminate, and copy the result over the input. */
  method Finish(p: array<char>, out: array<char>, end: nat, ghost c: string)
    requires 1 <= end < out.Length && p != out && |c| < p.Length
    requires out[..][..if end > 1 && out[end - 1] == '/' then end - 1 else end] == c
    modifies p, out
    ensures p[..|c| + 1] == c + ['\0'] && p[|c| + 1..] == old(p[|c| + 1..])
  {
    var o := end;
    if o > 1 && out[o - 1] == '/' { o := o - 1; }
    assert out[..][..o] == out[..o];
    out[o] := '\0';
    CopyBack(p, out, o);
    assert out[..o + 1] == out[..o] + ['\0'];
  }

  /** Dropping the slash at the end of the buffer gives the result. */
  lemma Trimmed(out: seq<char>, starts: seq<nat>, o: nat, st: Segs)
    requires Holds(out, starts, |st|, o, st)
    ensures 1 <= o < OUT_SIZE == |out| && out[..if o > 1 && out[o - 1] == '/' then o - 1 else o] == Render(st)
  {
    BuiltEnds(st);
    assert out[o - 1] == out[..o][o - 1];
    assert out[..o - 1] == out[..o][..o - 1];
  }

  lemma BuiltEnds(st: Segs)
    ensures (st != [] <==> Width(st) > 1) && (st != [] ==> Render(st) == Built(st)[..Width(st) - 1])
  {
  }

  // ---- relative paths ----

  /** The part of `s` that fits in `n` characters. */
  function Clip(s: string, n: nat): (r: string)
    ensures r <= s && (|s| <= n ==> r == s) && (|s| > n ==> |r| == n)
  {
    if |s| <= n then s else s[..n]
  }

  /** The path an argument names before canonicalisation. */
  function Joined(cwd: string, arg: string): string {
    if arg != [] && arg[0] == '/' then arg else Dir(cwd) + arg
  }

  /** In the directory reached from `a`, a relative argument names what `a/arg` names. */
  lemma RelativeToCwd(a: string, arg: string)
    requires a != [] && a[0] == '/' && !WalkOf(a).stopped && (arg == [] || arg[0] != '/')
    ensures Canon(Joined(Canon(a), arg)) == Canon(a + "/" + arg)
  {
    hide Segments, Fold;
    var cwd := Canon(a);
    CanonShape(a);
    Composes(a, arg);
    if |cwd| == 1 {
      assert cwd == "/";
      assert Joined(cwd, arg) == "/" + arg;
      assert (cwd + "/" + arg)[1..] == "/" + arg;
      SkipSlash(cwd + "/" + arg);
      assert WalkOf(cwd + "/" + arg) == WalkOf("/" + arg);
    } else {
      assert Joined(cwd, arg) == cwd + "/" + arg;
    }
  }

  /** An absolute argument names the same place from every directory, and with room enough a
      canonical one names itself. */
  lemma AbsoluteFromAnywhere(cwd: string, arg: string, n: nat)
    requires arg != [] && arg[0] == '/'
    ensures Canon(Clip(Joined(cwd, arg), n)) == Canon(Clip(arg, n))
    ensures |arg| <= n && Canon(arg) == arg ==> Canon(Clip(Joined(cwd, arg), n)) == arg
  {
  }

  /** Text that is not an absolute path is left alone. */
  lemma RelativeUntouched(s: string)
    requires s == [] || s[0] != '/'
    ensures Canon(s) == s
  {
  }

  /** Copy `src` to `out` from index `at`, leaving room for the terminator. */
  method CopyIn(src: string, out: array<char>, at: nat, cap: nat) returns (i: nat)
    requires at < cap <= out.Length
    modifies out
    ensures at <= i < cap && out[..i] == old(out[..at]) + Clip(src, cap - 1 - at)
  {
    i := at;
    while i - at < |src| && i + 1 < cap
      invariant at <= i < cap && i - at <= |src| && out[..i] == old(out[..at]) + src[..i - at]
    {
      out[i] := src[i - at];
      i := i + 1;
    }
    assert src[..i - at] == Clip(src, cap - 1 - at);
  }

  lemma ClipConcat(x: string, y: string, n: nat)
    ensures Clip(x + y, n) == Clip(x, n) + Clip(y, n - |Clip(x, n)|)
  {
  }

  function Dir(cwd: string): string { cwd + (if |cwd| > 1 then "/" else "") }

  lemma ClipDir(cwd: string, n: nat)
    ensures var d := Clip(cwd, n); Clip(Dir(cwd), n) == if |d| > 1 && |d| < n then d + "/" else d
  {
    if |cwd| <= 1 {
      assert Dir(cwd) == cwd;
    } else {
      ClipConcat(cwd, "/", n);
    }
  }

  method CopyDir(cwd: string, out: array<char>, cap: nat) returns (i: nat)
    requires 0 < cap <= out.Length
    modifies out
    ensures i < cap && out[..i] == Clip(Dir(cwd), cap - 1)
  {
    hide Clip, Dir;
    ClipDir(cwd, cap - 1);
    i := CopyIn(cwd, out, 0, cap);
    assert out[..0] == [];
    if i > 1 && i + 1 < cap {
      ghost var was := out[..i];
      out[i] := '/';
      i := i + 1;
      assert out[..i] == was + "/";
    }
  }

  method Join(cwd: string, arg: string, out: array<char>, cap: nat) returns (i: nat)
    requires 0 < cap <= out.Length
    modifies out
    ensures i < cap && out[..i] == Clip(Joined(cwd, arg), cap - 1)
  {
    hide Clip;
    if arg != [] && arg[0] == '/' {
      i := CopyIn(arg, out, 0, cap);
    } else {
      i := CopyDir(cwd, out, cap);
      assert |out[..i]| == i;
      ClipConcat(Dir(cwd), arg, cap - 1);
      i := CopyIn(arg, out, i, cap);
    }
  }

  /** resolve_path: join with the working directory, clip to the buffer, canonicalise. */
  method ResolvePath(cwd: string, arg: string, out: array<char>, cap: nat)
    requires 0 < cap <= out.Length && '\0' !in cwd && '\0' !in arg
    modifies out
    ensures var c := Canon(Clip(Joined(cwd, arg), cap - 1)); |c| < cap && out[..|c| + 1] == c + ['\0']
    ensures arg != [] && arg[0] == '/' ==>
              var c := Canon(Clip(arg, cap - 1)); |c| < cap && out[..|c| + 1] == c + ['\0']
  {
    hide Canon;
    var i := Join(cwd, arg, out, cap);
    ghost var text := out[..i];
    assert '\0' !in text;
    out[i] := '\0';
    assert out[..i] == text;
    PathCanonical(out, i);
  }
}
