/**
 Resolving a chain of static planar transforms. A pose is a translation and a rotation given by
 its cosine and sine, so angles need no wrapping.
 */
module StaticTf {

  type Frame = string

  function NormalizeFrame(frame: Frame): (r: Frame)
    ensures r == "" || r[0] != '/'
  {
    if frame != "" && frame[0] == '/' then NormalizeFrame(frame[1..]) else frame
  }

  /** Exactly the leading slashes go. */
  lemma {:induction false} SlashesAreStripped(slashes: string, name: Frame)
    requires (forall i :: 0 <= i < |slashes| ==> slashes[i] == '/') && (name == "" || name[0] != '/')
    ensures NormalizeFrame(slashes + name) == name
  {
    if slashes == "" {
      assert slashes + name == name;
    } else {
      assert (slashes + name)[1..] == slashes[1..] + name;
      SlashesAreStripped(slashes[1..], name);
    }
  }

  // ----- Planar transforms form a group -----

  datatype Pose = Pose(x: real, y: real, cosine: real, sine: real) {
    ghost predicate Valid() {
      cosine * cosine + sine * sine == 1.0
    }
  }

  const IDENTITY := Pose(0.0, 0.0, 1.0, 0.0)

  /** First `a`, then `b`: source to middle to target. */
  function Compose(a: Pose, b: Pose): Pose {
    Pose(b.x + b.cosine * a.x - b.sine * a.y,
         b.y + b.sine * a.x + b.cosine * a.y,
         a.cosine * b.cosine - a.sine * b.sine,
         a.sine * b.cosine + a.cosine * b.sine)
  }

  function Inverse(p: Pose): Pose {
    Pose(-p.cosine * p.x - p.sine * p.y, p.sine * p.x - p.cosine * p.y, p.cosine, -p.sine)
  }

  lemma ComposeAssociates(a: Pose, b: Pose, c: Pose)
    ensures Compose(Compose(a, b), c) == Compose(a, Compose(b, c))
  {
    AssociatesX(a, b, c);
    AssociatesY(a, b, c);
    AssociatesAngle(a, b, c);
    SamePose(Compose(Compose(a, b), c), Compose(a, Compose(b, c)));
  }

  lemma SamePose(p: Pose, q: Pose)
    requires p.x == q.x && p.y == q.y && p.cosine == q.cosine && p.sine == q.sine
    ensures p == q
  {
  }

  lemma AssociatesAngle(a: Pose, b: Pose, c: Pose)
    ensures Compose(Compose(a, b), c).cosine == Compose(a, Compose(b, c)).cosine
    ensures Compose(Compose(a, b), c).sine == Compose(a, Compose(b, c)).sine
  {
    AnglesAdd(a.cosine, a.sine, b.cosine, b.sine, c.cosine, c.sine);
  }

  lemma AssociatesX(a: Pose, b: Pose, c: Pose)
    ensures Compose(Compose(a, b), c).x == Compose(a, Compose(b, c)).x
  {
    ImageX(c.cosine, c.sine, b, a.x, a.y);
  }

  lemma AssociatesY(a: Pose, b: Pose, c: Pose)
    ensures Compose(Compose(a, b), c).y == Compose(a, Compose(b, c)).y
  {
    ImageY(c.cosine, c.sine, b, a.x, a.y);
  }

  /** Rotating an already placed point is placing it by the combined rotation. */
  lemma ImageX(k: real, l: real, b: Pose, x: real, y: real)
    ensures k * (b.x + b.cosine * x - b.sine * y) - l * (b.y + b.sine * x + b.cosine * y)
         == (k * b.x - l * b.y) + (b.cosine * k - b.sine * l) * x - (b.sine * k + b.cosine * l) * y
  {
    assert k * (b.x + b.cosine * x - b.sine * y) == k * b.x + b.cosine * k * x - b.sine * k * y;
    assert l * (b.y + b.sine * x + b.cosine * y) == l * b.y + b.sine * l * x + b.cosine * l * y;
  }

  lemma ImageY(k: real, l: real, b: Pose, x: real, y: real)
    ensures l * (b.x + b.cosine * x - b.sine * y) + k * (b.y + b.sine * x + b.cosine * y)
         == (l * b.x + k * b.y) + (b.sine * k + b.cosine * l) * x + (b.cosine * k - b.sine * l) * y
  {
    assert l * (b.x + b.cosine * x - b.sine * y) == l * b.x + b.cosine * l * x - b.sine * l * y;
    assert k * (b.y + b.sine * x + b.cosine * y) == k * b.y + b.sine * k * x + b.cosine * k * y;
  }

  lemma AnglesAdd(ac: real, as': real, bc: real, bs: real, cc: real, cs: real)
    ensures (ac * bc - as' * bs) * cc - (as' * bc + ac * bs) * cs ==
            ac * (bc * cc - bs * cs) - as' * (bs * cc + bc * cs)
    ensures (as' * bc + ac * bs) * cc + (ac * bc - as' * bs) * cs ==
            as' * (bc * cc - bs * cs) + ac * (bs * cc + bc * cs)
  {
  }

  lemma IdentityIsNeutral(p: Pose)
    ensures Compose(IDENTITY, p) == p && Compose(p, IDENTITY) == p
  {
  }

  lemma InverseIsTwoSided(p: Pose)
    requires p.Valid()
    ensures Compose(p, Inverse(p)) == IDENTITY && Compose(Inverse(p), p) == IDENTITY
  {
    UnitSquares(p.cosine, p.sine, p.x);
    UnitSquares(p.cosine, p.sine, p.y);
  }

  lemma UnitSquares(c: real, s: real, k: real)
    requires c * c + s * s == 1.0
    ensures c * (c * k) + s * (s * k) == k
  {
    assert c * (c * k) + s * (s * k) == (c * c + s * s) * k;
  }

  lemma ComposeIsValid(a: Pose, b: Pose)
    requires a.Valid() && b.Valid()
    ensures Compose(a, b).Valid() && Inverse(a).Valid() && IDENTITY.Valid()
  {
    var p := Compose(a, b);
    calc {
      p.cosine * p.cosine + p.sine * p.sine;
      (a.cosine * a.cosine + a.sine * a.sine) * (b.cosine * b.cosine + b.sine * b.sine);
      1.0;
    }
  }

  // ----- What a transform does to a point -----

  datatype Point = Point(x: real, y: real)

  /** The point turned by the pose's rotation, then moved by its translation. */
  function Image(p: Pose, q: Point): Point {
    Point(p.x + (p.cosine * q.x - p.sine * q.y), p.y + (p.sine * q.x + p.cosine * q.y))
  }

  /** Composing is applying one after the other: first `a`, then `b`. */
  lemma ComposeCarries(a: Pose, b: Pose, q: Point)
    ensures Image(Compose(a, b), q) == Image(b, Image(a, q))
  {
    CarriesX(a, b, q);
    CarriesY(a, b, q);
  }

  lemma CarriesX(a: Pose, b: Pose, q: Point)
    ensures Image(Compose(a, b), q).x == Image(b, Image(a, q)).x
  {
    ImageX(b.cosine, b.sine, a, q.x, q.y);
  }

  lemma CarriesY(a: Pose, b: Pose, q: Point)
    ensures Image(Compose(a, b), q).y == Image(b, Image(a, q)).y
  {
    ImageY(b.cosine, b.sine, a, q.x, q.y);
  }

  lemma IdentityCarries(q: Point)
    ensures Image(IDENTITY, q) == q
  {
  }

  /** The inverse takes a carried point back. */
  lemma InverseCarriesBack(p: Pose, q: Point)
    requires p.Valid()
    ensures Image(Inverse(p), Image(p, q)) == q
  {
    ComposeCarries(p, Inverse(p), q);
    InverseIsTwoSided(p);
    IdentityCarries(q);
  }

  // ----- The transform graph -----

  /** One static transform; its pose takes child coordinates to parent coordinates. */
  datatype Transform = Transform(parent: Frame, child: Frame, pose: Pose)
  datatype Edge = Edge(from: Frame, to: Frame, pose: Pose)

  predicate IsEdgeOf(t: Transform, e: Edge) {
    || e == Edge(NormalizeFrame(t.child), NormalizeFrame(t.parent), t.pose)
    || e == Edge(NormalizeFrame(t.parent), NormalizeFrame(t.child), Inverse(t.pose))
  }

  ghost predicate IsEdge(transforms: seq<Transform>, e: Edge) {
    exists k :: 0 <= k < |transforms| && IsEdgeOf(transforms[k], e)
  }

  type Walk = seq<Edge>

  ghost predicate IsWalk(transforms: seq<Transform>, walk: Walk, from: Frame, to: Frame) {
    if walk == [] then from == to
    else
      var last := walk[|walk| - 1];
      IsEdge(transforms, last) && last.to == to && IsWalk(transforms, walk[..|walk| - 1], from, last.from)
  }

  function Composite(walk: Walk): Pose {
    if walk == [] then IDENTITY else Compose(Composite(walk[..|walk| - 1]), walk[|walk| - 1].pose)
  }

  ghost predicate Leads(transforms: seq<Transform>, from: Frame, to: Frame, pose: Pose) {
    exists walk :: IsWalk(transforms, walk, from, to) && Composite(walk) == pose
  }

  ghost predicate Joined(transforms: seq<Transform>, from: Frame, to: Frame) {
    exists walk :: IsWalk(transforms, walk, from, to)
  }

  /** A walk of `n` edges composes to the pose. */
  ghost predicate LeadsIn(transforms: seq<Transform>, from: Frame, to: Frame, pose: Pose, n: nat) {
    exists walk :: IsWalk(transforms, walk, from, to) && Composite(walk) == pose && |walk| == n
  }

  ghost predicate NoShorter(transforms: seq<Transform>, from: Frame, to: Frame, n: nat) {
    forall walk :: IsWalk(transforms, walk, from, to) ==> n <= |walk|
  }

  /** The pose is composed along a walk with the fewest edges of all walks. */
  ghost predicate LeadsDirectly(transforms: seq<Transform>, from: Frame, to: Frame, pose: Pose) {
    exists n :: LeadsIn(transforms, from, to, pose, n) && NoShorter(transforms, from, to, n)
  }

  lemma LeadsOn(transforms: seq<Transform>, from: Frame, pose: Pose, e: Edge, n: nat)
    requires LeadsIn(transforms, from, e.from, pose, n) && IsEdge(transforms, e)
    ensures LeadsIn(transforms, from, e.to, Compose(pose, e.pose), n + 1)
  {
    var walk :| IsWalk(transforms, walk, from, e.from) && Composite(walk) == pose && |walk| == n;
    var longer := walk + [e];
    assert longer[..|walk|] == walk;
    assert IsWalk(transforms, longer, from, e.to) && Composite(longer) == Compose(pose, e.pose);
  }

  // ----- The search -----

  type Graph = map<Frame, seq<Edge>>

  function Outgoing(graph: Graph, frame: Frame): seq<Edge> {
    if frame in graph then graph[frame] else []
  }

  /** The adjacency lists hold exactly the edges of the first `n` transforms. */
  ghost predicate Represents(graph: Graph, transforms: seq<Transform>) {
    forall frame, e :: e in Outgoing(graph, frame) <==> e.from == frame && IsEdge(transforms, e)
  }

  method AddEdge(graph: Graph, e: Edge) returns (wider: Graph)
    ensures forall frame, f :: f in Outgoing(wider, frame) <==>
            f in Outgoing(graph, frame) || (frame == e.from && f == e)
  {
    wider := graph[e.from := Outgoing(graph, e.from) + [e]];
  }

  method BuildGraph(transforms: seq<Transform>) returns (graph: Graph)
    ensures Represents(graph, transforms)
  {
    graph := map[];
    for k := 0 to |transforms|
      invariant Represents(graph, transforms[..k])
    {
      var t := transforms[k];
      var parent, child := NormalizeFrame(t.parent), NormalizeFrame(t.child);
      ghost var before := graph;
      graph := AddEdge(graph, Edge(child, parent, t.pose));
      graph := AddEdge(graph, Edge(parent, child, Inverse(t.pose)));
      OneMoreTransform(transforms, k);
    }
    assert transforms[..|transforms|] == transforms;
  }

  lemma OneMoreTransform(transforms: seq<Transform>, k: nat)
    requires k < |transforms|
    ensures forall e :: IsEdge(transforms[..k + 1], e) <==> IsEdge(transforms[..k], e) || IsEdgeOf(transforms[k], e)
  {
    forall e
      ensures IsEdge(transforms[..k + 1], e) <==> IsEdge(transforms[..k], e) || IsEdgeOf(transforms[k], e)
    {
      var all, init := transforms[..k + 1], transforms[..k];
      if IsEdge(init, e) {
        var i :| 0 <= i < |init| && IsEdgeOf(init[i], e);
        assert all[i] == init[i];
      }
      if IsEdgeOf(transforms[k], e) {
        assert all[k] == transforms[k];
      }
    }
  }

  datatype Entry = Entry(frame: Frame, pose: Pose)
  datatype Resolution = Found(pose: Pose) | NotConnected

  /** Every queued pose is composed along a walk of its depth, and no walk to its frame is shorter. */
  ghost predicate Honest(transforms: seq<Transform>, source: Frame, queue: seq<Entry>, depths: seq<nat>) {
    |depths| == |queue| &&
    forall k :: 0 <= k < |queue| ==>
      && LeadsIn(transforms, source, queue[k].frame, queue[k].pose, depths[k])
      && NoShorter(transforms, source, queue[k].frame, depths[k])
  }

  /** The queue holds the rest of one level, followed by what is known of the next. */
  ghost predicate Levelled(depths: seq<nat>, d: nat) {
    && (forall i, j :: 0 <= i < j < |depths| ==> depths[i] <= depths[j])
    && forall k :: 0 <= k < |depths| ==> d <= depths[k] <= d + 1
  }

  /** Every frame within `d` edges of the source has been visited. */
  ghost predicate Covered(transforms: seq<Transform>, source: Frame, visited: set<Frame>, d: nat) {
    forall walk, to :: IsWalk(transforms, walk, source, to) && |walk| <= d ==> to in visited
  }

  ghost predicate Waiting(queue: seq<Entry>, frame: Frame) {
    exists k :: 0 <= k < |queue| && queue[k].frame == frame
  }

  ghost predicate Explored(transforms: seq<Transform>, visited: set<Frame>, frame: Frame) {
    forall e :: IsEdge(transforms, e) && e.from == frame ==> e.to in visited
  }

  ghost function AllFrames(transforms: seq<Transform>): set<Frame> {
    (set k | 0 <= k < |transforms| :: NormalizeFrame(transforms[k].parent))
    + (set k | 0 <= k < |transforms| :: NormalizeFrame(transforms[k].child))
  }

  lemma EdgeEndsAreFrames(transforms: seq<Transform>, e: Edge)
    requires IsEdge(transforms, e)
    ensures e.to in AllFrames(transforms)
  {
    var k :| 0 <= k < |transforms| && IsEdgeOf(transforms[k], e);
  }

  /** A walk cannot leave a set of explored frames. */
  lemma {:induction false} WalkStaysInside(
    transforms: seq<Transform>, visited: set<Frame>, walk: Walk, from: Frame, to: Frame)
    requires from in visited && IsWalk(transforms, walk, from, to)
    requires forall frame :: frame in visited ==> Explored(transforms, visited, frame)
    ensures to in visited
  {
    if walk != [] {
      var last := walk[|walk| - 1];
      WalkStaysInside(transforms, visited, walk[..|walk| - 1], from, last.from);
    }
  }

  /** What holds between two rounds of the search. */
  ghost predicate Searching(
    transforms: seq<Transform>, source: Frame, target: Frame, queue: seq<Entry>, depths: seq<nat>, visited: set<Frame>)
  {
    && source in visited && target !in visited && Honest(transforms, source, queue, depths)
    && (queue != [] ==> Levelled(depths, depths[0]) && Covered(transforms, source, visited, depths[0]))
    && forall frame :: frame in visited ==> Waiting(queue, frame) || Explored(transforms, visited, frame)
  }

  /** What holds within a round that expands a frame at depth `d`. */
  ghost predicate InRound(
    transforms: seq<Transform>, source: Frame, target: Frame, d: nat,
    queue: seq<Entry>, depths: seq<nat>, visited: set<Frame>, frames: set<Frame>)
  {
    && Honest(transforms, source, queue, depths) && Levelled(depths, d)
    && Covered(transforms, source, visited, d) && visited <= frames && target !in visited
  }

  /** An unvisited neighbour of a frame at depth `d` is at depth `d + 1`, and no nearer. */
  lemma NeighbourIsNext(transforms: seq<Transform>, source: Frame, visited: set<Frame>, pose: Pose, e: Edge, d: nat)
    requires LeadsIn(transforms, source, e.from, pose, d) && IsEdge(transforms, e)
    requires Covered(transforms, source, visited, d) && e.to !in visited
    ensures LeadsIn(transforms, source, e.to, Compose(pose, e.pose), d + 1)
    ensures NoShorter(transforms, source, e.to, d + 1)
  {
    LeadsOn(transforms, source, pose, e, d);
  }

  lemma PushKeepsRound(
    transforms: seq<Transform>, source: Frame, target: Frame, d: nat,
    queue: seq<Entry>, depths: seq<nat>, visited: set<Frame>, frames: set<Frame>, next: Entry)
    requires InRound(transforms, source, target, d, queue, depths, visited, frames)
    requires next.frame in frames && next.frame != target
    requires LeadsIn(transforms, source, next.frame, next.pose, d + 1)
    requires NoShorter(transforms, source, next.frame, d + 1)
    ensures InRound(transforms, source, target, d, queue + [next], depths + [d + 1], visited + {next.frame}, frames)
  {
    PushKeepsHonest(transforms, source, queue, depths, next, d + 1);
    PushKeepsLevels(depths, d);
    MoreIsCovered(transforms, source, visited, visited + {next.frame}, d);
  }

  lemma PushKeepsLevels(depths: seq<nat>, d: nat)
    requires Levelled(depths, d)
    ensures Levelled(depths + [d + 1], d)
  {
  }

  lemma MoreIsCovered(transforms: seq<Transform>, source: Frame, visited: set<Frame>, wider: set<Frame>, d: nat)
    requires Covered(transforms, source, visited, d) && visited <= wider
    ensures Covered(transforms, source, wider, d)
  {
  }

  lemma PushKeepsHonest(
    transforms: seq<Transform>, source: Frame, queue: seq<Entry>, depths: seq<nat>, next: Entry, n: nat)
    requires Honest(transforms, source, queue, depths)
    requires LeadsIn(transforms, source, next.frame, next.pose, n) && NoShorter(transforms, source, next.frame, n)
    ensures Honest(transforms, source, queue + [next], depths + [n])
  {
  }

  /** The part of the search state that one round extends. */
  ghost predicate Extends(queue: seq<Entry>, visited: set<Frame>, queue': seq<Entry>, visited': set<Frame>) {
    && visited <= visited' && (queue' == queue || visited < visited')
    && (forall frame :: Waiting(queue, frame) ==> Waiting(queue', frame))
    && (forall frame :: frame in visited' && frame !in visited ==> Waiting(queue', frame))
  }

  /** One round: every unvisited neighbour of `here` is queued, unless the target is among them. */
  method Expand(
    transforms: seq<Transform>, ghost source: Frame, target: Frame, here: Entry, ghost d: nat, edges: seq<Edge>,
    queue0: seq<Entry>, ghost depths0: seq<nat>, visited0: set<Frame>, ghost frames: set<Frame>)
    returns (found: bool, pose: Pose, queue: seq<Entry>, ghost depths: seq<nat>, visited: set<Frame>)
    requires LeadsIn(transforms, source, here.frame, here.pose, d)
    requires InRound(transforms, source, target, d, queue0, depths0, visited0, frames)
    requires forall k :: 0 <= k < |edges| ==>
               IsEdge(transforms, edges[k]) && edges[k].from == here.frame && edges[k].to in frames
    ensures found ==> LeadsIn(transforms, source, target, pose, d + 1) && NoShorter(transforms, source, target, d + 1)
    ensures !found ==>
              && Extends(queue0, visited0, queue, visited)
              && InRound(transforms, source, target, d, queue, depths, visited, frames)
              && forall k :: 0 <= k < |edges| ==> edges[k].to in visited
  {
    found, pose, queue, depths, visited := false, IDENTITY, queue0, depths0, visited0;
    for k := 0 to |edges|
      invariant !found && InRound(transforms, source, target, d, queue, depths, visited, frames)
      invariant Extends(queue0, visited0, queue, visited)
      invariant forall i :: 0 <= i < k ==> edges[i].to in visited
    {
      ghost var before, known := queue, visited;
      found, pose, queue, depths, visited :=
        Follow(transforms, source, target, here, d, edges[k], queue, depths, visited, frames);
      if found {
        return;
      }
      ExtendsFurther(queue0, visited0, before, known, queue, visited);
      EndsStayVisited(edges, k, known, visited);
    }
  }

  /** One edge: its end is queued if it was not visited, unless it is the target. */
  method Follow(
    transforms: seq<Transform>, ghost source: Frame, target: Frame, here: Entry, ghost d: nat, e: Edge,
    queue0: seq<Entry>, ghost depths0: seq<nat>, visited0: set<Frame>, ghost frames: set<Frame>)
    returns (found: bool, pose: Pose, queue: seq<Entry>, ghost depths: seq<nat>, visited: set<Frame>)
    requires LeadsIn(transforms, source, here.frame, here.pose, d)
    requires InRound(transforms, source, target, d, queue0, depths0, visited0, frames)
    requires IsEdge(transforms, e) && e.from == here.frame && e.to in frames
    ensures found ==> LeadsIn(transforms, source, target, pose, d + 1) && NoShorter(transforms, source, target, d + 1)
    ensures !found ==>
              && Extends(queue0, visited0, queue, visited) && e.to in visited
              && InRound(transforms, source, target, d, queue, depths, visited, frames)
  {
    found, pose, queue, depths, visited := false, IDENTITY, queue0, depths0, visited0;
    if e.to in visited {
      return;
    }
    NeighbourIsNext(transforms, source, visited, here.pose, e, d);
    var next := Entry(e.to, Compose(here.pose, e.pose));
    if next.frame == target {
      return true, next.pose, queue, depths, visited;
    }
    PushKeepsRound(transforms, source, target, d, queue, depths, visited, frames, next);
    PushExtends(queue0, visited0, queue, visited, next);
    visited, queue, depths := visited + {next.frame}, queue + [next], depths + [d + 1];
  }

  lemma EndsStayVisited(edges: seq<Edge>, k: nat, known: set<Frame>, visited: set<Frame>)
    requires k < |edges| && known <= visited && edges[k].to in visited
    requires forall i :: 0 <= i < k ==> edges[i].to in known
    ensures forall i :: 0 <= i < k + 1 ==> edges[i].to in visited
  {
  }

  lemma ExtendsFurther(
    queue0: seq<Entry>, visited0: set<Frame>, queue1: seq<Entry>, visited1: set<Frame>,
    queue2: seq<Entry>, visited2: set<Frame>)
    requires Extends(queue0, visited0, queue1, visited1) && Extends(queue1, visited1, queue2, visited2)
    ensures Extends(queue0, visited0, queue2, visited2) && visited1 <= visited2
  {
  }

  lemma PushExtends(
    queue0: seq<Entry>, visited0: set<Frame>, queue: seq<Entry>, visited: set<Frame>, next: Entry)
    requires Extends(queue0, visited0, queue, visited) && next.frame !in visited
    ensures Extends(queue0, visited0, queue + [next], visited + {next.frame})
  {
    PushKeepsWaiting(queue, next);
  }

  /**
   Breadth-first search for the transform from the scan frame to the base frame. It fails exactly
   when the frames are not connected, and otherwise composes the edges of a real walk, one with the
   fewest edges of all.
   */
  method ResolveScanToBase(transforms: seq<Transform>, scanFrame: Frame, baseFrame: Frame) returns (r: Resolution)
    ensures r.NotConnected? <==> !Joined(transforms, NormalizeFrame(scanFrame), NormalizeFrame(baseFrame))
    ensures r.Found? ==> Leads(transforms, NormalizeFrame(scanFrame), NormalizeFrame(baseFrame), r.pose)
    ensures r.Found? ==> LeadsDirectly(transforms, NormalizeFrame(scanFrame), NormalizeFrame(baseFrame), r.pose)
    ensures r.Found? ==> Carries(transforms, NormalizeFrame(scanFrame), NormalizeFrame(baseFrame), r.pose)
  {
    var graph := BuildGraph(transforms);
    var source, target := NormalizeFrame(scanFrame), NormalizeFrame(baseFrame);
    SourceLeads(transforms, source, target);
    if source == target {
      LeadingPoseCarries(transforms, source, target, IDENTITY);
      return Found(IDENTITY);
    }
    var queue := [Entry(source, IDENTITY)];
    var visited := {source};
    ghost var depths: seq<nat> := [0];
    ghost var frames := AllFrames(transforms) + {source};
    while queue != []
      invariant Searching(transforms, source, target, queue, depths, visited) && visited <= frames
      decreases frames - visited, |queue|
    {
      var here := queue[0];
      var edges := Outgoing(graph, here.frame);
      ghost var waiting, levels, known := queue, depths, visited;
      EdgesAreReal(transforms, graph, here.frame);
      RoundBegins(transforms, source, target, queue, depths, visited, frames);
      var found, pose;
      found, pose, queue, depths, visited :=
        Expand(transforms, source, target, here, depths[0], edges, queue[1..], depths[1..], visited, frames);
      if found {
        DirectLead(transforms, source, target, pose, levels[0] + 1);
        LeadingPoseCarries(transforms, source, target, pose);
        return Found(pose);
      }
      HeadIsExplored(transforms, graph, visited, here.frame);
      RoundKeepsSearching(transforms, source, target, waiting, levels, known, queue, depths, visited, frames);
    }
    NoWalkEscapes(transforms, source, target, visited);
    return NotConnected;
  }

  lemma DirectLead(transforms: seq<Transform>, from: Frame, to: Frame, pose: Pose, n: nat)
    requires LeadsIn(transforms, from, to, pose, n) && NoShorter(transforms, from, to, n)
    ensures Leads(transforms, from, to, pose) && LeadsDirectly(transforms, from, to, pose)
    ensures Joined(transforms, from, to)
  {
  }

  lemma RoundBegins(
    transforms: seq<Transform>, source: Frame, target: Frame, queue: seq<Entry>, depths: seq<nat>,
    visited: set<Frame>, frames: set<Frame>)
    requires queue != [] && visited <= frames && Searching(transforms, source, target, queue, depths, visited)
    ensures LeadsIn(transforms, source, queue[0].frame, queue[0].pose, depths[0])
    ensures InRound(transforms, source, target, depths[0], queue[1..], depths[1..], visited, frames)
  {
  }

  lemma EdgesAreReal(transforms: seq<Transform>, graph: Graph, frame: Frame)
    requires Represents(graph, transforms)
    ensures forall k {:trigger Outgoing(graph, frame)[k]} :: 0 <= k < |Outgoing(graph, frame)| ==>
              var e := Outgoing(graph, frame)[k];
              IsEdge(transforms, e) && e.from == frame && e.to in AllFrames(transforms)
  {
    forall k | 0 <= k < |Outgoing(graph, frame)|
      ensures var e := Outgoing(graph, frame)[k];
              IsEdge(transforms, e) && e.from == frame && e.to in AllFrames(transforms)
    {
      assert Outgoing(graph, frame)[k] in Outgoing(graph, frame);
      EdgeEndsAreFrames(transforms, Outgoing(graph, frame)[k]);
    }
  }

  lemma SourceLeads(transforms: seq<Transform>, source: Frame, target: Frame)
    ensures source == target ==> LeadsDirectly(transforms, source, target, IDENTITY)
    ensures source == target ==> Leads(transforms, source, target, IDENTITY)
    ensures source != target ==> Searching(transforms, source, target, [Entry(source, IDENTITY)], [0], {source})
  {
    assert IsWalk(transforms, [], source, source) && Composite([]) == IDENTITY;
    assert LeadsIn(transforms, source, source, IDENTITY, 0) && NoShorter(transforms, source, source, 0);
    assert [Entry(source, IDENTITY)][0].frame == source;
    assert Waiting([Entry(source, IDENTITY)], source);
  }

  /** When a level is used up, every frame one edge further has been visited. */
  lemma LevelIsDone(
    transforms: seq<Transform>, source: Frame, queue: seq<Entry>, depths: seq<nat>, visited: set<Frame>, d: nat)
    requires Honest(transforms, source, queue, depths) && Covered(transforms, source, visited, d)
    requires forall k :: 0 <= k < |depths| ==> depths[k] > d
    requires forall frame :: frame in visited ==> Waiting(queue, frame) || Explored(transforms, visited, frame)
    ensures Covered(transforms, source, visited, d + 1)
  {
    forall walk: Walk, to: Frame | IsWalk(transforms, walk, source, to) && |walk| <= d + 1
      ensures to in visited
    {
      if |walk| == d + 1 {
        var last: Edge, init: Walk := walk[d], walk[..d];
        assert IsWalk(transforms, init, source, last.from);
        NotWaiting(transforms, source, queue, depths, init, last.from);
      }
    }
  }

  lemma NotWaiting(
    transforms: seq<Transform>, source: Frame, queue: seq<Entry>, depths: seq<nat>, walk: Walk, frame: Frame)
    requires Honest(transforms, source, queue, depths) && IsWalk(transforms, walk, source, frame)
    requires forall k :: 0 <= k < |depths| ==> depths[k] > |walk|
    ensures !Waiting(queue, frame)
  {
    forall k | 0 <= k < |queue|
      ensures queue[k].frame != frame
    {
      assert NoShorter(transforms, source, queue[k].frame, depths[k]);
    }
  }

  lemma StillExplored(
    transforms: seq<Transform>, queue: seq<Entry>, visited: set<Frame>, queue': seq<Entry>, visited': set<Frame>)
    requires queue != [] && Extends(queue[1..], visited, queue', visited')
    requires Explored(transforms, visited', queue[0].frame)
    requires forall frame :: frame in visited ==> Waiting(queue, frame) || Explored(transforms, visited, frame)
    ensures forall frame :: frame in visited' ==> Waiting(queue', frame) || Explored(transforms, visited', frame)
  {
    forall frame | frame in visited'
      ensures Waiting(queue', frame) || Explored(transforms, visited', frame)
    {
      if frame in visited && frame != queue[0].frame && Waiting(queue, frame) {
        PopKeepsWaiting(queue, frame);
      }
    }
  }

  lemma RoundKeepsSearching(
    transforms: seq<Transform>, source: Frame, target: Frame, queue: seq<Entry>, depths: seq<nat>, visited: set<Frame>,
    queue': seq<Entry>, depths': seq<nat>, visited': set<Frame>, frames: set<Frame>)
    requires queue != [] && Searching(transforms, source, target, queue, depths, visited)
    requires InRound(transforms, source, target, depths[0], queue', depths', visited', frames)
    requires Extends(queue[1..], visited, queue', visited') && Explored(transforms, visited', queue[0].frame)
    ensures Searching(transforms, source, target, queue', depths', visited')
  {
    StillExplored(transforms, queue, visited, queue', visited');
    if queue' != [] && depths'[0] != depths[0] {
      LevelIsDone(transforms, source, queue', depths', visited', depths[0]);
    }
  }

  lemma NoWalkEscapes(transforms: seq<Transform>, source: Frame, target: Frame, visited: set<Frame>)
    requires source in visited && target !in visited
    requires forall frame :: frame in visited ==> Waiting([], frame) || Explored(transforms, visited, frame)
    ensures !Joined(transforms, source, target)
  {
    forall walk
      ensures !IsWalk(transforms, walk, source, target)
    {
      if IsWalk(transforms, walk, source, target) {
        WalkStaysInside(transforms, visited, walk, source, target);
      }
    }
  }

  lemma PushKeepsWaiting(queue: seq<Entry>, e: Entry)
    ensures Waiting(queue + [e], e.frame)
    ensures forall frame :: Waiting(queue, frame) ==> Waiting(queue + [e], frame)
  {
    var longer := queue + [e];
    assert longer[|queue|] == e;
    forall frame | Waiting(queue, frame)
      ensures Waiting(longer, frame)
    {
      var k :| 0 <= k < |queue| && queue[k].frame == frame;
      assert longer[k].frame == frame;
    }
  }

  lemma PopKeepsWaiting(queue: seq<Entry>, frame: Frame)
    requires queue != [] && Waiting(queue, frame) && queue[0].frame != frame
    ensures Waiting(queue[1..], frame)
  {
    var k :| 0 <= k < |queue| && queue[k].frame == frame;
    assert queue[1..][k - 1].frame == frame;
  }

  lemma HeadIsExplored(transforms: seq<Transform>, graph: Graph, visited: set<Frame>, frame: Frame)
    requires Represents(graph, transforms)
    requires forall i :: 0 <= i < |Outgoing(graph, frame)| ==> Outgoing(graph, frame)[i].to in visited
    ensures Explored(transforms, visited, frame)
  {
    forall e | IsEdge(transforms, e) && e.from == frame
      ensures e.to in visited
    {
      assert e in Outgoing(graph, frame);
    }
  }

  // ----- One point seen from every frame -----

  /** `at` gives one point in the coordinates of every frame: each transform takes the child's to the parent's. */
  ghost predicate SeenFrom(transforms: seq<Transform>, at: Frame -> Point) {
    forall k :: 0 <= k < |transforms| ==>
      var t := transforms[k];
      t.pose.Valid() && at(NormalizeFrame(t.parent)) == Image(t.pose, at(NormalizeFrame(t.child)))
  }

  lemma EdgeCarries(transforms: seq<Transform>, at: Frame -> Point, e: Edge)
    requires SeenFrom(transforms, at) && IsEdge(transforms, e)
    ensures Image(e.pose, at(e.from)) == at(e.to)
  {
    var k :| 0 <= k < |transforms| && IsEdgeOf(transforms[k], e);
    var t := transforms[k];
    InverseCarriesBack(t.pose, at(NormalizeFrame(t.child)));
  }

  lemma {:induction false} WalkCarries(
    transforms: seq<Transform>, at: Frame -> Point, walk: Walk, from: Frame, to: Frame)
    requires SeenFrom(transforms, at) && IsWalk(transforms, walk, from, to)
    ensures Image(Composite(walk), at(from)) == at(to)
  {
    if walk == [] {
      IdentityCarries(at(from));
    } else {
      var init, last := walk[..|walk| - 1], walk[|walk| - 1];
      WalkCarries(transforms, at, init, from, last.from);
      EdgeCarries(transforms, at, last);
      ComposeCarries(Composite(init), last.pose, at(from));
    }
  }

  /** A pose found by the search takes a point's scan coordinates to its base coordinates. */
  ghost predicate Carries(transforms: seq<Transform>, from: Frame, to: Frame, pose: Pose) {
    forall at: Frame -> Point {:trigger SeenFrom(transforms, at)} ::
      SeenFrom(transforms, at) ==> Image(pose, at(from)) == at(to)
  }

  lemma LeadingPoseCarries(transforms: seq<Transform>, from: Frame, to: Frame, pose: Pose)
    requires Leads(transforms, from, to, pose)
    ensures Carries(transforms, from, to, pose)
  {
    var walk :| IsWalk(transforms, walk, from, to) && Composite(walk) == pose;
    forall at: Frame -> Point | SeenFrom(transforms, at)
      ensures Image(pose, at(from)) == at(to)
    {
      WalkCarries(transforms, at, walk, from, to);
    }
  }

  /** A scan 0.1 ahead of a lidar that sits 0.2 ahead in the base, turned left: the order of turning counts. */
  lemma TurnedLidar()
    ensures Compose(Pose(0.1, 0.0, 1.0, 0.0), Pose(0.2, 0.0, 0.0, 1.0)) == Pose(0.2, 0.1, 0.0, 1.0)
  {
  }

  // ----- Consistent frame poses -----

  /** Every frame has one pose in the world, and every transform agrees with it. */
  ghost predicate Consistent(transforms: seq<Transform>, world: Frame -> Pose) {
    && (forall f :: world(f).Valid())
    && forall k :: 0 <= k < |transforms| ==>
         var t := transforms[k];
         t.pose.Valid() && Compose(t.pose, world(NormalizeFrame(t.parent))) == world(NormalizeFrame(t.child))
  }

  lemma EdgeAgrees(transforms: seq<Transform>, world: Frame -> Pose, e: Edge)
    requires Consistent(transforms, world) && IsEdge(transforms, e)
    ensures Compose(e.pose, world(e.to)) == world(e.from)
  {
    var k :| 0 <= k < |transforms| && IsEdgeOf(transforms[k], e);
    var t := transforms[k];
    var parent := world(NormalizeFrame(t.parent));
    if e.pose != t.pose || e.from != NormalizeFrame(t.child) {
      ComposeAssociates(Inverse(t.pose), t.pose, parent);
      InverseIsTwoSided(t.pose);
      IdentityIsNeutral(parent);
    }
  }

  lemma {:induction false} WalkAgrees(
    transforms: seq<Transform>, world: Frame -> Pose, walk: Walk, from: Frame, to: Frame)
    requires Consistent(transforms, world) && IsWalk(transforms, walk, from, to)
    ensures Compose(Composite(walk), world(to)) == world(from)
  {
    if walk == [] {
      IdentityIsNeutral(world(to));
    } else {
      var init, last := walk[..|walk| - 1], walk[|walk| - 1];
      WalkAgrees(transforms, world, init, from, last.from);
      EdgeAgrees(transforms, world, last);
      ComposeAssociates(Composite(init), last.pose, world(to));
    }
  }

  /** With consistent poses every walk gives the same transform, fixed by the two frames alone. */
  lemma ResolutionIsUnique(transforms: seq<Transform>, world: Frame -> Pose, from: Frame, to: Frame, pose: Pose)
    requires Consistent(transforms, world) && Leads(transforms, from, to, pose)
    ensures pose == Compose(world(from), Inverse(world(to)))
  {
    var walk :| IsWalk(transforms, walk, from, to) && Composite(walk) == pose;
    WalkAgrees(transforms, world, walk, from, to);
    ComposeAssociates(pose, world(to), Inverse(world(to)));
    InverseIsTwoSided(world(to));
    IdentityIsNeutral(pose);
  }
}
