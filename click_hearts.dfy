/**
 * The click-hearts effect (general/clickaixin.js): every click spawns a heart
 * at the cursor, and every animation frame floats each heart up, grows it and
 * fades it, dropping the hearts that have faded out.
 *
 * The heart's element and its CSS text are reduced to the numbers written into
 * that text; the random colour is a parameter.
 */
module ClickHearts {
  import opened Common

  /** What one frame does to the heart at a given position of the list. */
  datatype Fate = Removed | Updated | Skipped

  /**
   * The frame loop as written: a faded heart (alpha at most 0) is spliced out
   * and the index still advances, so the heart that moved into its place is not
   * looked at in this frame.
   */
  function Plan(alphas: seq<real>): (plan: seq<Fate>)
    ensures |plan| == |alphas|
  {
    if alphas == [] then []
    else if alphas[0] <= 0.0 then
      if |alphas| == 1 then [Removed] else [Removed, Skipped] + Plan(alphas[2..])
    else [Updated] + Plan(alphas[1..])
  }

  /** The frame loop as evidently intended: every heart is looked at once. */
  function PlanFixed(alphas: seq<real>): (plan: seq<Fate>)
    ensures |plan| == |alphas|
    ensures forall k :: 0 <= k < |alphas| ==> plan[k] == if alphas[k] <= 0.0 then Removed else Updated
  {
    if alphas == [] then [] else [if alphas[0] <= 0.0 then Removed else Updated] + PlanFixed(alphas[1..])
  }

  /** One step of `Plan` at position j of the list. */
  lemma PlanAt(alphas: seq<real>, j: nat)
    requires j < |alphas|
    ensures Plan(alphas[j..]) ==
              if alphas[j] <= 0.0 then
                if j + 1 == |alphas| then [Removed] else [Removed, Skipped] + Plan(alphas[j + 2..])
              else [Updated] + Plan(alphas[j + 1..])
  {
    assert alphas[j..][1..] == alphas[j + 1..];
    if j + 1 < |alphas| {
      assert alphas[j..][2..] == alphas[j + 2..];
    }
  }

  /** The fates at and after position j, read off the alpha there. */
  lemma PlanHead(alphas: seq<real>, plan: seq<Fate>, j: nat)
    requires |plan| == |alphas| && j < |alphas| && Plan(alphas[j..]) == plan[j..]
    ensures alphas[j] <= 0.0 ==> plan[j] == Removed
    ensures alphas[j] <= 0.0 && j + 1 < |alphas| ==> plan[j + 1] == Skipped
    ensures alphas[j] <= 0.0 && j + 2 < |alphas| ==> Plan(alphas[j + 2..]) == plan[j + 2..]
    ensures alphas[j] > 0.0 ==> plan[j] == Updated
    ensures alphas[j] > 0.0 && j + 1 < |alphas| ==> Plan(alphas[j + 1..]) == plan[j + 1..]
  {
    PlanAt(alphas, j);
    assert plan[j] == plan[j..][0];
    if j + 1 < |alphas| {
      assert plan[j + 1] == plan[j..][1];
      assert plan[j + 1..] == plan[j..][1..];
    }
    if j + 2 < |alphas| {
      assert plan[j + 2..] == plan[j..][2..];
    }
  }

  /**
   * The frame as written removes only faded hearts, updates only live ones,
   * and skips exactly the position right after a removal.
   */
  lemma {:induction false} PlanMeaning(alphas: seq<real>)
    ensures var plan := Plan(alphas);
            forall k :: 0 <= k < |alphas| ==>
              (plan[k] == Removed ==> alphas[k] <= 0.0) &&
              (plan[k] == Updated ==> alphas[k] > 0.0) &&
              (plan[k] == Skipped <==> k > 0 && plan[k - 1] == Removed)
  {
    if alphas != [] {
      if alphas[0] <= 0.0 {
        if |alphas| > 1 {
          PlanMeaning(alphas[2..]);
          var plan := Plan(alphas);
          var rest := Plan(alphas[2..]);
          assert forall k :: 2 <= k < |alphas| ==> plan[k] == rest[k - 2] && alphas[k] == alphas[2..][k - 2];
        }
      } else {
        PlanMeaning(alphas[1..]);
        var plan := Plan(alphas);
        var rest := Plan(alphas[1..]);
        assert forall k :: 1 <= k < |alphas| ==> plan[k] == rest[k - 1] && alphas[k] == alphas[1..][k - 1];
      }
    }
  }

  /** With no faded heart, the two loops agree: every heart is updated. */
  lemma {:induction false} PlanWithoutFaded(alphas: seq<real>)
    requires forall k :: 0 <= k < |alphas| ==> alphas[k] > 0.0
    ensures Plan(alphas) == PlanFixed(alphas)
  {
    if alphas != [] {
      PlanWithoutFaded(alphas[1..]);
    }
  }

  /** A faded heart followed by a live one: the live one is not updated. */
  lemma SkippedAfterRemoval()
    ensures Plan([0.0, 0.5]) == [Removed, Skipped]
    ensures PlanFixed([0.0, 0.5]) == [Removed, Updated]
  {
    assert [0.0, 0.5][2..] == [];
  }

  /** Two adjacent faded hearts: the second stays on the page for another frame. */
  lemma SecondFadedSurvives()
    ensures Plan([0.0, 0.0]) == [Removed, Skipped]
    ensures PlanFixed([0.0, 0.0]) == [Removed, Removed]
  {
    assert [0.0, 0.0][2..] == [];
  }

  /** The elements whose fate is not `Removed`, in their order. */
  function Kept<T>(xs: seq<T>, plan: seq<Fate>): (r: seq<T>)
    requires |xs| == |plan|
    ensures |r| <= |xs|
  {
    if xs == [] then []
    else Kept(xs[..|xs| - 1], plan[..|xs| - 1]) + (if plan[|xs| - 1] == Removed then [] else [xs[|xs| - 1]])
  }

  /** Extending the prefix by one position. */
  lemma KeptSnoc<T>(xs: seq<T>, plan: seq<Fate>, j: nat)
    requires |xs| == |plan| && j < |xs|
    ensures Kept(xs[..j + 1], plan[..j + 1]) ==
              Kept(xs[..j], plan[..j]) + (if plan[j] == Removed then [] else [xs[j]])
  {
    assert xs[..j + 1][..j] == xs[..j];
    assert plan[..j + 1][..j] == plan[..j];
  }

  /** Nothing is dropped when nothing is `Removed`. */
  lemma {:induction false} KeptAll<T>(xs: seq<T>, plan: seq<Fate>)
    requires |xs| == |plan| && forall k :: 0 <= k < |plan| ==> plan[k] != Removed
    ensures Kept(xs, plan) == xs
  {
    if xs != [] {
      var n := |xs| - 1;
      KeptAll(xs[..n], plan[..n]);
      assert xs == xs[..n] + [xs[n]];
    }
  }

  /** The positions whose fate is not `Removed`, in increasing order. */
  function KeptIndices(plan: seq<Fate>): (idx: seq<nat>)
    ensures forall a :: 0 <= a < |idx| ==> idx[a] < |plan| && plan[idx[a]] != Removed
    ensures forall a, b :: 0 <= a < b < |idx| ==> idx[a] < idx[b]
    ensures forall j :: 0 <= j < |plan| && plan[j] != Removed ==> j in idx
  {
    if plan == [] then []
    else
      var n := |plan| - 1;
      var front := KeptIndices(plan[..n]);
      assert forall j :: 0 <= j < n ==> plan[..n][j] == plan[j];
      front + (if plan[n] == Removed then [] else [n])
  }

  /**
   * `Kept` holds exactly the elements at `KeptIndices`: the ones not `Removed`,
   * each once, in their old order.
   */
  lemma {:induction false} KeptAt<T>(xs: seq<T>, plan: seq<Fate>)
    requires |xs| == |plan|
    ensures |Kept(xs, plan)| == |KeptIndices(plan)|
    ensures forall a :: 0 <= a < |Kept(xs, plan)| ==> Kept(xs, plan)[a] == xs[KeptIndices(plan)[a]]
  {
    if xs != [] {
      var n := |xs| - 1;
      KeptAt(xs[..n], plan[..n]);
      var front := Kept(xs[..n], plan[..n]);
      var idx := KeptIndices(plan[..n]);
      var r := Kept(xs, plan);
      assert r == front + (if plan[n] == Removed then [] else [xs[n]]);
      assert KeptIndices(plan) == idx + (if plan[n] == Removed then [] else [n]);
      forall a | 0 <= a < |front|
        ensures r[a] == xs[idx[a]]
      {
        assert idx[a] < n;
        assert xs[..n][idx[a]] == xs[idx[a]];
      }
    }
  }

  /**
   * The list during the frame: the visited prefix already decided (`done` holds
   * each heart after its step) followed by the hearts not yet visited.
   */
  function During<T>(done: seq<T>, rest: seq<T>, plan: seq<Fate>, j: nat): seq<T>
    requires |done| == |rest| == |plan| && j <= |done|
  {
    Kept(done[..j], plan[..j]) + rest[j..]
  }

  /** The first unvisited heart sits right after the decided prefix. */
  lemma DuringAt<T>(done: seq<T>, rest: seq<T>, plan: seq<Fate>, j: nat)
    requires |done| == |rest| == |plan| && j < |done|
    ensures During(done, rest, plan, j)[|Kept(done[..j], plan[..j])|] == rest[j]
  {
  }

  /** A faded heart spliced out at position j (and the next one skipped). */
  lemma RemoveStep<T>(done: seq<T>, rest: seq<T>, plan: seq<Fate>, j: nat)
    requires |done| == |rest| == |plan| && j < |done| && plan[j] == Removed
    requires j + 1 < |done| ==> plan[j + 1] == Skipped && done[j + 1] == rest[j + 1]
    ensures var front := Kept(done[..j], plan[..j]);
            var cur := During(done, rest, plan, j);
            var next := if j + 1 < |done| then j + 2 else j + 1;
            cur[|front|] == rest[j] &&
            cur[..|front|] + cur[|front| + 1..] == During(done, rest, plan, next) &&
            (next < |done| ==> |Kept(done[..next], plan[..next])| == |front| + 1)
  {
    var front := Kept(done[..j], plan[..j]);
    var cur := During(done, rest, plan, j);
    KeptSnoc(done, plan, j);
    assert cur[..|front|] == front;
    assert cur[|front| + 1..] == rest[j + 1..];
    if j + 1 < |done| {
      KeptSnoc(done, plan, j + 1);
      assert rest[j + 1..] == [rest[j + 1]] + rest[j + 2..];
    }
  }

  /** A live heart replaced in place by its updated value at position j. */
  lemma KeepStep<T>(done: seq<T>, rest: seq<T>, plan: seq<Fate>, j: nat)
    requires |done| == |rest| == |plan| && j < |done| && plan[j] != Removed
    ensures var front := Kept(done[..j], plan[..j]);
            var cur := During(done, rest, plan, j);
            cur[|front|] == rest[j] &&
            cur[|front| := done[j]] == During(done, rest, plan, j + 1) &&
            |Kept(done[..j + 1], plan[..j + 1])| == |front| + 1
  {
    KeptSnoc(done, plan, j);
    var front := Kept(done[..j], plan[..j]);
    assert rest[j..] == [rest[j]] + rest[j + 1..];
  }

  /** The `rgb(…)` channel `~~(255 * Math.random())` for a random u in [0, 1). */
  function Channel(u: real): (c: int)
    requires 0.0 <= u < 1.0
    ensures 0 <= c <= 254
    ensures c as real <= 255.0 * u < c as real + 1.0
  {
    (255.0 * u).Floor
  }

  /**
   * The page's previous `onclick` (whether calling it throws) and the handler
   * the script installs over it.
   */
  datatype Handler = NotAFunction | PageHandler(id: nat, throws: bool) | HeartHandler(previous: Handler)

  /** A call of a page handler, and whether it received the click event. */
  datatype Call = PageCall(id: nat, withEvent: bool)

  /** What dispatching a click does: handler calls, hearts spawned, and an uncaught error. */
  datatype Outcome = Outcome(calls: seq<Call>, spawned: seq<(real, real)>, threw: bool)

  /** `n()`: keep the previous handler only when it is a function. */
  function Install(previous: Handler): (h: Handler)
    ensures h.HeartHandler? && (h.previous.NotAFunction? <==> previous.NotAFunction?)
  {
    HeartHandler(previous)
  }

  /**
   * Calling a handler with the click position, or with no argument:
   * the installed handler first calls the previous one with no argument, then
   * spawns a heart at the event's position, which throws when there is no event.
   */
  function Dispatch(h: Handler, click: Option<(real, real)>): (r: Outcome)
    ensures click.None? ==> r.spawned == []
    ensures |r.spawned| <= 1
    ensures r.spawned != [] ==> !r.threw && click == Some(r.spawned[0])
  {
    match h
    case NotAFunction => Outcome([], [], false)
    case PageHandler(id, throws) => Outcome([PageCall(id, click.Some?)], [], throws)
    case HeartHandler(previous) =>
      var first := Dispatch(previous, None);
      if first.threw then first
      else if click.None? then Outcome(first.calls, first.spawned, true)
      else Outcome(first.calls, first.spawned + [click.value], false)
  }

  /**
   * Installed once over a page handler: a click calls the page handler (without
   * the event) and then spawns exactly one heart at the click, unless the page
   * handler throws, which leaves the wrapper before the heart is spawned.
   */
  lemma InstalledOnce(previous: Handler, x: real, y: real)
    requires !previous.HeartHandler?
    ensures var r := Dispatch(Install(previous), Some((x, y)));
            var pageThrows := previous.PageHandler? && previous.throws;
            r.threw == pageThrows && r.spawned == (if pageThrows then [] else [(x, y)]) &&
            r.calls == (if previous.PageHandler? then [PageCall(previous.id, false)] else [])
  {
  }

  /**
   * Installed twice (the script included two times): the inner handler is
   * called without an event and throws, so a click spawns no heart at all.
   */
  lemma InstalledTwiceSpawnsNothing(previous: Handler, x: real, y: real)
    requires !previous.HeartHandler?
    ensures var r := Dispatch(Install(Install(previous)), Some((x, y)));
            r.threw && r.spawned == []
  {
    assert Dispatch(previous, None).spawned == [];
    assert Dispatch(Install(previous), None).threw && Dispatch(Install(previous), None).spawned == [];
  }

  /**
   * A heart as the frame loop sees it: the numbers it writes into the element's
   * CSS text. The list holds the only reference to each record.
   */
  datatype Heart = Heart(x: real, y: real, scale: real, alpha: real, color: (int, int, int))

  /** The record `o` pushes for a click at (clientX, clientY). */
  function NewHeart(clientX: real, clientY: real, color: (int, int, int)): (h: Heart)
    ensures h.x == clientX - 5.0 && h.y == clientY - 5.0 && h.scale == 1.0 && h.alpha == 1.0
  {
    Heart(clientX - 5.0, clientY - 5.0, 1.0, 1.0, color)
  }

  /** What one frame does to a heart, given its fate: only `Updated` changes it. */
  function Step(h: Heart, fate: Fate): (r: Heart)
    ensures fate == Updated ==>
              r.x == h.x && r.color == h.color && r.y == h.y - 1.0 && r.scale == h.scale + 0.004 && r.alpha == h.alpha - 0.013
    ensures fate != Updated ==> r == h
  {
    if fate == Updated then h.(y := h.y - 1.0, scale := h.scale + 0.004, alpha := h.alpha - 0.013) else h
  }

  function Alphas(hs: seq<Heart>): (r: seq<real>)
    ensures |r| == |hs| && forall k :: 0 <= k < |hs| ==> r[k] == hs[k].alpha
  {
    seq(|hs|, k requires 0 <= k < |hs| => hs[k].alpha)
  }

  /** Every heart after its step, before any is dropped. */
  function Stepped(hs: seq<Heart>, plan: seq<Fate>): (r: seq<Heart>)
    requires |plan| == |hs|
    ensures |r| == |hs| && forall k :: 0 <= k < |hs| ==> r[k] == Step(hs[k], plan[k])
  {
    seq(|hs|, k requires 0 <= k < |hs| => Step(hs[k], plan[k]))
  }

  /** The list after one frame of `r` as written. */
  function AfterFrame(hs: seq<Heart>): seq<Heart>
  {
    var plan := Plan(Alphas(hs));
    Kept(Stepped(hs, plan), plan)
  }

  /** With no faded heart, a frame updates every heart and drops none. */
  lemma FrameWithoutFaded(hs: seq<Heart>)
    requires forall k :: 0 <= k < |hs| ==> hs[k].alpha > 0.0
    ensures |AfterFrame(hs)| == |hs|
    ensures forall k :: 0 <= k < |hs| ==> AfterFrame(hs)[k] == Step(hs[k], Updated)
  {
    var plan := Plan(Alphas(hs));
    PlanWithoutFaded(Alphas(hs));
    KeptAll(Stepped(hs, plan), plan);
  }

  /**
   * A frame keeps the hearts at `KeptIndices` of its plan, in their old order,
   * each after its own step; every heart still visible is among them.
   */
  lemma FrameKeeps(hs: seq<Heart>)
    ensures var plan := Plan(Alphas(hs));
            var idx := KeptIndices(plan);
            |AfterFrame(hs)| == |idx| &&
            (forall a :: 0 <= a < |idx| ==> AfterFrame(hs)[a] == Step(hs[idx[a]], plan[idx[a]])) &&
            forall k :: 0 <= k < |hs| && hs[k].alpha > 0.0 ==> k in idx
  {
    var plan := Plan(Alphas(hs));
    KeptAt(Stepped(hs, plan), plan);
    PlanMeaning(Alphas(hs));
  }

  /** The heart of a click fades out after 77 updates: alive for k < 77 of them. */
  lemma {:induction false} FadeOut(h: Heart, k: nat)
    requires h.alpha == 1.0 && k <= 77
    ensures Fade(h, k).alpha == 1.0 - 0.013 * k as real
    ensures Fade(h, k).alpha > 0.0 <==> k < 77
  {
    if k > 0 {
      FadeOut(h, k - 1);
    }
  }

  /** k updates in a row. */
  function Fade(h: Heart, k: nat): Heart
  {
    if k == 0 then h else Step(Fade(h, k - 1), Updated)
  }

  /** The splice of `r` at the j-th heart of the frame, which has faded out. */
  lemma FrameRemove(all: seq<Heart>, alphas: seq<real>, plan: seq<Fate>, done: seq<Heart>, j: nat)
    requires |all| == |alphas| == |plan| && j < |all| && done == Stepped(all, plan)
    requires alphas == Alphas(all) && Plan(alphas[j..]) == plan[j..] && all[j].alpha <= 0.0
    ensures var front := Kept(done[..j], plan[..j]);
            var cur := During(done, all, plan, j);
            var next := if j + 1 < |all| then j + 2 else j + 1;
            cur[..|front|] + cur[|front| + 1..] == During(done, all, plan, next) &&
            (next < |all| ==> |Kept(done[..next], plan[..next])| == |front| + 1 && Plan(alphas[next..]) == plan[next..])
  {
    PlanHead(alphas, plan, j);
    RemoveStep(done, all, plan, j);
  }

  /** The update of `r` at the j-th heart of the frame, h being its new value. */
  lemma FrameUpdate(all: seq<Heart>, alphas: seq<real>, plan: seq<Fate>, done: seq<Heart>, j: nat, h: Heart)
    requires |all| == |alphas| == |plan| && j < |all| && done == Stepped(all, plan)
    requires alphas == Alphas(all) && Plan(alphas[j..]) == plan[j..] && all[j].alpha > 0.0
    requires h == all[j].(y := all[j].y - 1.0, scale := all[j].scale + 0.004, alpha := all[j].alpha - 0.013)
    ensures var front := Kept(done[..j], plan[..j]);
            During(done, all, plan, j)[|front| := h] == During(done, all, plan, j + 1) &&
            |Kept(done[..j + 1], plan[..j + 1])| == |front| + 1 &&
            (j + 1 < |all| ==> Plan(alphas[j + 1..]) == plan[j + 1..])
  {
    PlanHead(alphas, plan, j);
    assert h == done[j];
    KeepStep(done, all, plan, j);
  }

  /**
   * The state of `r`'s loop: the hearts before position j of the frame are
   * decided, e indexes the first undecided one, and the fates still to come
   * are `Plan` of the alphas still to come.
   */
  ghost predicate Sweeping(hearts: seq<Heart>, all: seq<Heart>, alphas: seq<real>, plan: seq<Fate>,
                           done: seq<Heart>, e: nat, j: nat)
  {
    j <= |all| && |plan| == |all| && alphas == Alphas(all) && done == Stepped(all, plan) &&
    hearts == During(done, all, plan, j) &&
    e >= |Kept(done[..j], plan[..j])| && (j < |all| ==> e == |Kept(done[..j], plan[..j])|) &&
    (j < |all| ==> Plan(alphas[j..]) == plan[j..])
  }

  class Hearts {
    var hearts: seq<Heart>

    constructor ()
      ensures hearts == []
    {
      hearts := [];
    }

    /** `o`: a new heart at the click, at the end of the list. */
    method Spawn(clientX: real, clientY: real, color: (int, int, int))
      modifies this
      ensures hearts == old(hearts) + [NewHeart(clientX, clientY, color)]
    {
      hearts := hearts + [Heart(clientX - 5.0, clientY - 5.0, 1.0, 1.0, color)];
    }

    /** `r`, one animation frame. */
    method Frame()
      modifies this
      ensures hearts == AfterFrame(old(hearts))
    {
      ghost var all := hearts;
      ghost var alphas := Alphas(hearts);
      ghost var plan := Plan(alphas);
      ghost var done := Stepped(all, plan);
      var e := 0;
      ghost var j := 0;
      assert all[0..] == all;
      while e < |hearts|
        invariant Sweeping(hearts, all, alphas, plan, done, e, j)
        decreases |all| - j
      {
        j := Visit(e, all, alphas, plan, done, j);
        e := e + 1;
      }
      assert all[j..] == [] && done[..j] == done && plan[..j] == plan;
    }

    /** The body of `r`'s loop at index e, the j-th heart of the frame. */
    method Visit(e: nat, ghost all: seq<Heart>, ghost alphas: seq<real>, ghost plan: seq<Fate>,
                 ghost done: seq<Heart>, ghost j: nat) returns (ghost next: nat)
      requires Sweeping(hearts, all, alphas, plan, done, e, j) && e < |hearts|
      modifies this
      ensures Sweeping(hearts, all, alphas, plan, done, e + 1, next) && j < next
    {
      assert hearts[e] == all[j] by {
        DuringAt(done, all, plan, j);
      }
      if hearts[e].alpha <= 0.0 {
        FrameRemove(all, alphas, plan, done, j);
        hearts := hearts[..e] + hearts[e + 1..];
        next := if j + 1 < |all| then j + 2 else j + 1;
      } else {
        var h := hearts[e];
        h := h.(y := h.y - 1.0, scale := h.scale + 0.004, alpha := h.alpha - 0.013);
        FrameUpdate(all, alphas, plan, done, j, h);
        hearts := hearts[e := h];
        next := j + 1;
      }
    }
  }
}
