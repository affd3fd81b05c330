/** The post-processing pipeline (`PostProcessingManager`).

    The composer owns an ordered list of passes, and the manager keeps a
    second structure beside it: a map from names to passes. The two are
    updated together by `addPass` and `removePass`. A master `enabled` flag
    decides whether a frame goes through the composer or is rendered
    directly. */
module PostProcessing {
  import opened Wrappers

  /** What a pass does; only the built-in ones are told apart. */
  datatype Kind = RenderScene | UnrealBloom | GammaCorrection | Smaa | Custom(description: string)

  /** A pass object. `id` stands for object identity, which is what the
      list's `indexOf` compares. */
  datatype Pass = Pass(id: nat, kind: Kind, enabled: bool)

  /** The effect composer: its pass list and its drawing-buffer size. */
  datatype Composer = Composer(passes: seq<Pass>, width: real, height: real, pixelRatio: real)

  /** The manager: its composer (absent only if it was never created), the
      name-to-pass map, and the master switch. */
  datatype Manager = Manager(composer: Option<Composer>, named: map<string, Pass>, enabled: bool)

  /** The result of `addPass` or `removePass`: the boolean they return and
      the manager afterwards, or the `TypeError` that reading the pass list
      of a missing composer throws. */
  datatype Reply = Returned(manager: Manager, ok: bool) | TypeError

  /** How `render` produced the frame. */
  datatype Frame = ThroughComposer | Direct

  const RenderPass: Pass := Pass(0, RenderScene, true)
  const BloomPass: Pass := Pass(1, UnrealBloom, true)
  const GammaPass: Pass := Pass(2, GammaCorrection, false)
  const SmaaPass: Pass := Pass(3, Smaa, true)

  /** The antialiasing pass is added only at a renderer pixel ratio of
      exactly 1 on WebGL 2. */
  predicate UsesSmaa(rendererPixelRatio: real, isWebGL2: bool) {
    rendererPixelRatio == 1.0 && isWebGL2
  }

  /** The composer's pixel ratio: the device's, capped at 2. */
  function CappedPixelRatio(devicePixelRatio: real): (r: real)
    ensures r <= 2.0 && r <= devicePixelRatio
    ensures r == devicePixelRatio || r == 2.0
  {
    if devicePixelRatio < 2.0 then devicePixelRatio else 2.0
  }

  /** The names bound to pass `p`. */
  ghost function Names(named: map<string, Pass>, p: Pass): set<string> {
    set n | n in named && named[n] == p
  }

  /** The map and the list agree: a composer exists, and no pass is bound
      to more names than it has places in the list. In particular every
      bound pass is in the list. */
  ghost predicate Registered(m: Manager) {
    && m.composer.Some?
    && forall p :: |Names(m.named, p)| <= multiset(m.composer.value.passes)[p]
  }

  /** `getPassCount`. */
  function GetPassCount(m: Manager): nat {
    if m.composer.Some? then |m.composer.value.passes| else 0
  }

  /** Construction (`createComposer` then `setupPasses`): render, bloom and
      gamma correction (disabled), then antialiasing when the renderer
      allows it, each appended straight to the composer's list and stored
      under its own name. */
  function Create(rendererPixelRatio: real, isWebGL2: bool, devicePixelRatio: real,
                  width: real, height: real): (m: Manager)
    ensures m.enabled && m.composer.Some?
    ensures var s := m.composer.value.passes;
            && |s| >= 3 && s[0] == RenderPass && s[1] == BloomPass && s[2] == GammaPass
            && !s[2].enabled
            && (|s| == 4 ==> s[3] == SmaaPass)
    ensures GetPassCount(m) == if UsesSmaa(rendererPixelRatio, isWebGL2) then 4 else 3
    ensures SmaaPass in m.composer.value.passes <==> UsesSmaa(rendererPixelRatio, isWebGL2)
    ensures m.named.Keys == {"renderPass", "bloomPass", "gammaPass"}
                            + (if UsesSmaa(rendererPixelRatio, isWebGL2) then {"smaaPass"} else {})
    ensures && m.named["renderPass"] == RenderPass && m.named["bloomPass"] == BloomPass
            && m.named["gammaPass"] == GammaPass
    ensures UsesSmaa(rendererPixelRatio, isWebGL2) ==> m.named["smaaPass"] == SmaaPass
    ensures m.composer.value.pixelRatio == CappedPixelRatio(devicePixelRatio)
    ensures m.composer.value.width == width && m.composer.value.height == height
    ensures Registered(m)
  {
    var smaa := UsesSmaa(rendererPixelRatio, isWebGL2);
    var passes := [RenderPass, BloomPass, GammaPass] + (if smaa then [SmaaPass] else []);
    var named := map["renderPass" := RenderPass, "bloomPass" := BloomPass, "gammaPass" := GammaPass]
                 + (if smaa then map["smaaPass" := SmaaPass] else map[]);
    var m := Manager(Some(Composer(passes, width, height, CappedPixelRatio(devicePixelRatio))), named, true);
    DistinctBindingsRegistered(m);
    m
  }

  /** On a new manager each name removes its own pass: removing
      "bloomPass" leaves render, gamma correction and any antialiasing, in
      order. */
  lemma RemoveBloomFromNew(rendererPixelRatio: real, isWebGL2: bool, devicePixelRatio: real,
                           width: real, height: real)
    ensures var m := Create(rendererPixelRatio, isWebGL2, devicePixelRatio, width, height);
            var r := RemovePass(m, "bloomPass");
            && r.Returned? && r.ok && r.manager.composer.Some?
            && r.manager.composer.value.passes
               == [RenderPass, GammaPass] + (if UsesSmaa(rendererPixelRatio, isWebGL2) then [SmaaPass] else [])
            && "bloomPass" !in r.manager.named
  {
    var m := Create(rendererPixelRatio, isWebGL2, devicePixelRatio, width, height);
    var s := m.composer.value.passes;
    assert IndexOf(s, BloomPass) == 1;
  }

  /** A map that binds every pass to at most one name, and only passes in
      the list, agrees with the list. */
  lemma DistinctBindingsRegistered(m: Manager)
    requires m.composer.Some?
    requires forall a, b :: a in m.named && b in m.named && a != b ==> m.named[a] != m.named[b]
    requires forall n :: n in m.named ==> m.named[n] in m.composer.value.passes
    ensures Registered(m)
  {
    forall p ensures |Names(m.named, p)| <= multiset(m.composer.value.passes)[p] {
      if Names(m.named, p) != {} {
        var n :| n in Names(m.named, p);
        assert Names(m.named, p) == {n};
      }
    }
  }

  /** `addPass`: with no composer or no pass it returns false and changes
      nothing; otherwise it appends the pass to the end of the list, binds
      the name to it (replacing any earlier binding) and returns true. */
  function AddPass(m: Manager, pass: Option<Pass>, name: string): (r: Reply)
    ensures r.Returned?
    ensures r.ok <==> m.composer.Some? && pass.Some?
    ensures !r.ok ==> r.manager == m
    ensures r.ok ==> && r.manager.composer.Some?
                     && r.manager.composer.value.passes == m.composer.value.passes + [pass.value]
    ensures r.ok ==> r.manager.composer
                     == Some(m.composer.value.(passes := m.composer.value.passes + [pass.value]))
    ensures r.ok ==> r.manager.named == m.named[name := pass.value]
    ensures r.ok ==> GetPassCount(r.manager) == GetPassCount(m) + 1
    ensures r.manager.enabled == m.enabled
  {
    if m.composer.Some? && pass.Some? then
      var c := m.composer.value;
      Returned(m.(composer := Some(c.(passes := c.passes + [pass.value])),
                  named := m.named[name := pass.value]), true)
    else
      Returned(m, false)
  }

  /** The position of the first `p` in `s`, or -1 (`Array.prototype.indexOf`). */
  function IndexOf(s: seq<Pass>, p: Pass): (i: int)
    ensures -1 <= i < |s|
    ensures i == -1 <==> p !in s
    ensures 0 <= i ==> s[i] == p
    ensures forall k :: 0 <= k < i ==> s[k] != p
    decreases |s|
  {
    if |s| == 0 then -1
    else if s[0] == p then 0
    else
      var j := IndexOf(s[1..], p);
      if j == -1 then -1 else j + 1
  }

  /** `removePass`: for a bound name whose pass is in the list, it deletes
      the first occurrence of that pass, unbinds the name and returns true.
      An unbound name, or a bound pass that is not in the list, returns
      false and changes nothing. A bound name with no composer throws. */
  function RemovePass(m: Manager, name: string): (r: Reply)
    ensures r.TypeError? <==> name in m.named && m.composer.None?
    ensures r.Returned? ==>
              (r.ok <==> name in m.named && m.named[name] in m.composer.value.passes)
    ensures r.Returned? && !r.ok ==> r.manager == m
    ensures r.Returned? && r.ok ==>
              var s := m.composer.value.passes;
              var i := IndexOf(s, m.named[name]);
              && r.manager.composer == Some(m.composer.value.(passes := s[..i] + s[i + 1..]))
              && r.manager.named == m.named - {name}
              && r.manager.enabled == m.enabled
              && GetPassCount(r.manager) == GetPassCount(m) - 1
  {
    if name !in m.named then Returned(m, false)
    else if m.composer.None? then TypeError
    else
      var c := m.composer.value;
      var i := IndexOf(c.passes, m.named[name]);
      if i > -1 then
        Returned(m.(composer := Some(c.(passes := c.passes[..i] + c.passes[i + 1..])),
                    named := m.named - {name}), true)
      else
        Returned(m, false)
  }

  /** A successful `removePass` deletes exactly one occurrence of the
      unbound pass, the first, and keeps every other pass in its order. */
  lemma RemovePassDeletesFirstOccurrence(m: Manager, name: string)
    requires RemovePass(m, name).Returned? && RemovePass(m, name).ok
    ensures var s := m.composer.value.passes;
            var p := m.named[name];
            var s' := RemovePass(m, name).manager.composer.value.passes;
            exists i :: && 0 <= i < |s| && s[i] == p && p !in s[..i]
                        && s' == s[..i] + s[i + 1..]
    ensures multiset(RemovePass(m, name).manager.composer.value.passes)
            == multiset(m.composer.value.passes) - multiset{m.named[name]}
  {
    var s := m.composer.value.passes;
    var i := IndexOf(s, m.named[name]);
    assert s == s[..i] + [s[i]] + s[i + 1..];
  }

  /** A pass that is bound has a place in the list of an agreeing manager. */
  lemma BoundPassInList(m: Manager, name: string)
    requires Registered(m) && name in m.named
    ensures m.named[name] in m.composer.value.passes
  {
    var p := m.named[name];
    assert name in Names(m.named, p);
    assert |Names(m.named, p)| >= 1;
  }

  /** On an agreeing manager, `removePass` succeeds exactly for the bound
      names. */
  lemma RemoveSucceedsIffBound(m: Manager, name: string)
    requires Registered(m)
    ensures RemovePass(m, name).Returned?
    ensures RemovePass(m, name).ok <==> name in m.named
  {
    if name in m.named {
      BoundPassInList(m, name);
    }
  }

  /** Rebinding a name with `addPass` leaves the pass it was bound to in the
      list, no longer reachable through that name. */
  lemma AddPassRebindKeepsOldPass(m: Manager, pass: Pass, name: string)
    requires Registered(m) && name in m.named
    ensures var r := AddPass(m, Some(pass), name).manager;
            && r.named[name] == pass
            && m.named[name] in r.composer.value.passes
  {
    BoundPassInList(m, name);
  }

  lemma {:induction false} SubsetCardinality(a: set<string>, b: set<string>)
    requires a <= b
    ensures |a| <= |b|
    decreases |a|
  {
    if a != {} {
      var x :| x in a;
      SubsetCardinality(a - {x}, b - {x});
    }
  }

  /** `addPass` keeps the map and the list in agreement. */
  lemma AddPassKeepsRegistered(m: Manager, pass: Option<Pass>, name: string)
    requires Registered(m)
    ensures Registered(AddPass(m, pass, name).manager)
  {
    if pass.Some? {
      var p := pass.value;
      var r := AddPass(m, pass, name).manager;
      forall q ensures |Names(r.named, q)| <= multiset(r.composer.value.passes)[q] {
        assert multiset(r.composer.value.passes) == multiset(m.composer.value.passes) + multiset{p};
        if q == p {
          assert Names(r.named, q) <= Names(m.named, q) + {name};
          SubsetCardinality(Names(r.named, q), Names(m.named, q) + {name});
        } else {
          assert Names(r.named, q) <= Names(m.named, q);
          SubsetCardinality(Names(r.named, q), Names(m.named, q));
        }
      }
    }
  }

  /** One pass's share of `RemovePassKeepsRegistered`: the removed pass
      loses one name and one place, every other pass neither. */
  lemma RemoveKeepsBound(m: Manager, name: string, q: Pass)
    requires Registered(m) && name in m.named
    requires RemovePass(m, name).Returned? && RemovePass(m, name).ok
    ensures var r := RemovePass(m, name).manager;
            |Names(r.named, q)| <= multiset(r.composer.value.passes)[q]
  {
    var p := m.named[name];
    var r := RemovePass(m, name).manager;
    RemovePassDeletesFirstOccurrence(m, name);
    var before := multiset(m.composer.value.passes);
    var after := multiset(r.composer.value.passes);
    assert after == before - multiset{p};
    assert |Names(m.named, q)| <= before[q];
    if q == p {
      assert name in Names(m.named, q);
      assert Names(r.named, q) == Names(m.named, q) - {name};
      assert after[q] == before[q] - 1;
    } else {
      assert Names(r.named, q) == Names(m.named, q);
      assert after[q] == before[q];
    }
  }

  /** `removePass` keeps the map and the list in agreement. */
  lemma RemovePassKeepsRegistered(m: Manager, name: string)
    requires Registered(m)
    ensures RemovePass(m, name).Returned? && Registered(RemovePass(m, name).manager)
  {
    RemoveSucceedsIffBound(m, name);
    if name in m.named {
      var r := RemovePass(m, name).manager;
      forall q ensures |Names(r.named, q)| <= multiset(r.composer.value.passes)[q] {
        RemoveKeepsBound(m, name, q);
      }
    }
  }

  /** `setEnabled`: only the master switch changes. */
  function SetEnabled(m: Manager, enabled: bool): (r: Manager)
    ensures r.enabled == enabled
    ensures r.composer == m.composer && r.named == m.named
  {
    m.(enabled := enabled)
  }

  /** `resize`: with a composer, its size and capped pixel ratio are
      replaced; without one nothing happens. The passes are untouched. */
  function Resize(m: Manager, width: real, height: real, devicePixelRatio: real): (r: Manager)
    ensures m.composer.None? ==> r == m
    ensures m.composer.Some? ==>
              && r.composer.Some?
              && r.composer.value.passes == m.composer.value.passes
              && r.composer.value.width == width && r.composer.value.height == height
              && r.composer.value.pixelRatio == CappedPixelRatio(devicePixelRatio)
    ensures r.named == m.named && r.enabled == m.enabled
  {
    match m.composer
    case None => m
    case Some(c) =>
      m.(composer := Some(c.(width := width, height := height,
                             pixelRatio := CappedPixelRatio(devicePixelRatio))))
  }

  /** `render`. */
  function Render(m: Manager): Frame {
    if m.enabled && m.composer.Some? then ThroughComposer else Direct
  }

  /** The frame goes through the composer exactly when the switch is on and
      a composer exists; switching never touches the passes. */
  lemma RenderFollowsSwitch(m: Manager, enabled: bool)
    ensures Render(m) == ThroughComposer <==> m.enabled && m.composer.Some?
    ensures Render(SetEnabled(m, enabled)) == ThroughComposer <==> enabled && m.composer.Some?
    ensures GetPassCount(SetEnabled(m, enabled)) == GetPassCount(m)
  {
  }

  /** The calls a user of the manager can make after construction. */
  datatype Call =
    | Add(pass: Option<Pass>, name: string)
    | Remove(name: string)
    | Enable(on: bool)
    | ResizeTo(width: real, height: real, devicePixelRatio: real)

  /** One call. */
  function Apply(m: Manager, c: Call): Manager {
    match c
    case Add(pass, name) => AddPass(m, pass, name).manager
    case Remove(name) =>
      var r := RemovePass(m, name);
      if r.Returned? then r.manager else m
    case Enable(on) => SetEnabled(m, on)
    case ResizeTo(w, h, dpr) => Resize(m, w, h, dpr)
  }

  /** A sequence of calls, in order. */
  function Run(m: Manager, calls: seq<Call>): Manager
    decreases |calls|
  {
    if |calls| == 0 then m else Run(Apply(m, calls[0]), calls[1..])
  }

  /** Every call sequence keeps the map and the list in agreement. */
  lemma {:induction false} RunKeepsRegistered(m: Manager, calls: seq<Call>)
    requires Registered(m)
    ensures Registered(Run(m, calls))
    decreases |calls|
  {
    if |calls| > 0 {
      match calls[0] {
        case Add(pass, name) => AddPassKeepsRegistered(m, pass, name);
        case Remove(name) => RemovePassKeepsRegistered(m, name);
        case Enable(on) =>
        case ResizeTo(w, h, dpr) =>
      }
      RunKeepsRegistered(Apply(m, calls[0]), calls[1..]);
    }
  }

  /** On any manager reached from construction, `removePass` never throws
      and succeeds exactly for the bound names. */
  lemma ReachableRemoveSucceedsIffBound(rendererPixelRatio: real, isWebGL2: bool,
                                        devicePixelRatio: real, width: real, height: real,
                                        calls: seq<Call>, name: string)
    ensures var m := Run(Create(rendererPixelRatio, isWebGL2, devicePixelRatio, width, height), calls);
            && RemovePass(m, name).Returned?
            && (RemovePass(m, name).ok <==> name in m.named)
  {
    var m0 := Create(rendererPixelRatio, isWebGL2, devicePixelRatio, width, height);
    RunKeepsRegistered(m0, calls);
    RemoveSucceedsIffBound(Run(m0, calls), name);
  }
}
