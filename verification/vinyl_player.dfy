/** The record player (`VinylPlayerManager`).

    A playing/stopped flag is flipped by every click. Starting spins the disc,
    swings the arm onto the record and plays the background music; stopping
    kills whatever disc and arm animations were last started, eases both
    parts back to rest and pauses the music. Animations and audio are
    fire-and-forget, so each operation reports them only as the list of
    effects it issued. */
module VinylPlayer {
  import opened Wrappers
  import Text

  /** A scene-graph node. `id` stands for object identity: two distinct nodes
      may carry the same name. */
  datatype Node = Node(id: nat, name: string)

  /** The observable side effects, in the order they are issued. Animations
      that can later be killed carry the serial number of their tween. */
  datatype Effect =
    | Warn                  // "components not found" console warning
    | SpinDisc(tween: nat)  // endless disc rotation
    | LowerArm(tween: nat)  // arm timeline onto the record
    | Play                  // background music play()
    | KillDisc(tween: nat)  // kill of the stored disc animation
    | ResetDisc             // disc eased back to rest
    | KillArm(tween: nat)   // kill of the stored arm animation
    | ResetArm              // arm timeline back to rest
    | Pause                 // background music pause()
    | FlashCursor           // pointer cursor flashed

  /** The manager's fields, the nodes flagged `userData.isInteractive`, and
      the serial number the next tween will get. */
  datatype Player = Player(
    disc: Option<Node>,
    arm: Option<Node>,
    body: Option<Node>,
    interactiveObjects: seq<Node>,
    flagged: set<Node>,
    isPlaying: bool,
    discAnimation: Option<nat>,
    armAnimation: Option<nat>,
    nextTween: nat)

  /** The player after an operation, and the effects the operation issued. */
  datatype Outcome = Outcome(player: Player, effects: seq<Effect>)

  /** Both parts `start` needs are present. */
  predicate Complete(p: Player) {
    p.disc.Some? && p.arm.Some?
  }

  /** What the last play or pause among `effects` left the music doing:
      `Some(true)` after a play, `Some(false)` after a pause, `None` when
      there was neither. */
  function Music(effects: seq<Effect>): Option<bool>
    decreases |effects|
  {
    if |effects| == 0 then None
    else if effects[|effects| - 1] == Play then Some(true)
    else if effects[|effects| - 1] == Pause then Some(false)
    else Music(effects[..|effects| - 1])
  }

  /** Whether the music is audible after `effects`, when it was `before`. */
  function Audible(before: bool, effects: seq<Effect>): bool {
    match Music(effects)
    case Some(on) => on
    case None => before
  }

  /** A play or pause in the later effects decides the music; otherwise the
      earlier ones do. */
  lemma {:induction false} MusicAppend(s: seq<Effect>, t: seq<Effect>)
    ensures Music(s + t) == if Music(t).Some? then Music(t) else Music(s)
    decreases |t|
  {
    if |t| == 0 {
      assert s + t == s;
    } else {
      assert (s + t)[..|s + t| - 1] == s + t[..|t| - 1];
      MusicAppend(s, t[..|t| - 1]);
    }
  }

  /** Audibility composes: after `s + t` it is what `t` makes of what `s`
      left. */
  lemma AudibleAppend(before: bool, s: seq<Effect>, t: seq<Effect>)
    ensures Audible(before, s + t) == Audible(Audible(before, s), t)
  {
    MusicAppend(s, t);
  }

  /** The nodes that are present, in the order disc, arm, player body. */
  function Present(disc: Option<Node>, arm: Option<Node>, body: Option<Node>): (s: seq<Node>)
    ensures forall n :: n in s <==> Some(n) == disc || Some(n) == arm || Some(n) == body
    ensures |s| == (if disc.Some? then 1 else 0) + (if arm.Some? then 1 else 0)
                   + (if body.Some? then 1 else 0)
    ensures disc.Some? ==> s[0] == disc.value
    ensures arm.Some? ==> s[if disc.Some? then 1 else 0] == arm.value
    ensures body.Some? ==> s[|s| - 1] == body.value
  {
    (if disc.Some? then [disc.value] else [])
    + (if arm.Some? then [arm.value] else [])
    + (if body.Some? then [body.value] else [])
  }

  /** The constructor: no parts, nothing interactive, stopped, no animations. */
  function New(): (r: Player)
    ensures !r.isPlaying && !Complete(r)
    ensures r.disc.None? && r.arm.None? && r.body.None?
    ensures r.interactiveObjects == []
    ensures r.discAnimation.None? && r.armAnimation.None?
  {
    Player(None, None, None, [], {}, false, None, None, 0)
  }

  /** `initialize`: the three parts are replaced (absent ones too), and each
      present one is appended to the interactive list, in order, and flagged
      interactive. Nothing already in the list is removed. */
  function Initialize(p: Player, disc: Option<Node>, arm: Option<Node>, body: Option<Node>): (r: Player)
    ensures r.disc == disc && r.arm == arm && r.body == body
    ensures |r.interactiveObjects| == |p.interactiveObjects| + |Present(disc, arm, body)|
    ensures r.interactiveObjects[..|p.interactiveObjects|] == p.interactiveObjects
    ensures forall n :: n in r.interactiveObjects <==> n in p.interactiveObjects || n in Present(disc, arm, body)
    ensures forall n :: n in r.flagged <==> n in p.flagged || n in Present(disc, arm, body)
    ensures r.interactiveObjects == p.interactiveObjects + Present(disc, arm, body)
    ensures r.isPlaying == p.isPlaying
    ensures r.discAnimation == p.discAnimation && r.armAnimation == p.armAnimation
    ensures r.nextTween == p.nextTween
  {
    var added := Present(disc, arm, body);
    assert (p.interactiveObjects + added)[..|p.interactiveObjects|] == p.interactiveObjects;
    p.(disc := disc, arm := arm, body := body,
       interactiveObjects := p.interactiveObjects + added,
       flagged := p.flagged + set n | n in added)
  }

  /** `start`: with the disc or the arm missing it only warns and changes
      nothing; otherwise it starts a disc spin and an arm swing, remembers
      both, and plays the music exactly once. The flag is not its business. */
  function Start(p: Player): (o: Outcome)
    ensures !Complete(p) ==> o == Outcome(p, [Warn])
    ensures Complete(p) ==> o.effects == [SpinDisc(p.nextTween), LowerArm(p.nextTween + 1), Play]
    ensures Complete(p) ==> o.player.discAnimation == Some(p.nextTween)
                             && o.player.armAnimation == Some(p.nextTween + 1)
    ensures Play in o.effects <==> Complete(p)
    ensures Pause !in o.effects
    ensures Complete(p) ==> o.player == p.(discAnimation := Some(p.nextTween),
                                           armAnimation := Some(p.nextTween + 1),
                                           nextTween := p.nextTween + 2)
    ensures o.player.isPlaying == p.isPlaying && o.player.nextTween >= p.nextTween
    ensures o.player.disc == p.disc && o.player.arm == p.arm
    ensures o.player.interactiveObjects == p.interactiveObjects
  {
    if !Complete(p) then
      Outcome(p, [Warn])
    else
      var disc := p.nextTween;
      var arm := p.nextTween + 1;
      Outcome(p.(discAnimation := Some(disc), armAnimation := Some(arm), nextTween := p.nextTween + 2),
              [SpinDisc(disc), LowerArm(arm), Play])
  }

  /** What `stop` does to the disc: kill its stored animation if there is
      one, then ease it back to rest if it is present. */
  function StopDisc(animation: Option<nat>, present: bool): (e: seq<Effect>)
    ensures Pause !in e && Play !in e
    ensures forall t: nat :: KillDisc(t) in e <==> animation == Some(t)
    ensures forall t: nat :: KillArm(t) !in e
  {
    (if animation.Some? then [KillDisc(animation.value)] else [])
    + (if present then [ResetDisc] else [])
  }

  /** What `stop` does to the arm: kill its stored animation if there is
      one, then swing it back to rest if it is present. */
  function StopArm(animation: Option<nat>, present: bool): (e: seq<Effect>)
    ensures Pause !in e && Play !in e
    ensures forall t: nat :: KillArm(t) in e <==> animation == Some(t)
    ensures forall t: nat :: KillDisc(t) !in e
  {
    (if animation.Some? then [KillArm(animation.value)] else [])
    + (if present then [ResetArm] else [])
  }

  /** `stop`: kills the stored disc and arm animations only if there are
      any, eases present parts back to rest, and always pauses the music,
      last. The player itself is unchanged: the stored animations are not
      cleared. */
  function Stop(p: Player): (o: Outcome)
    ensures o.player == p
    ensures |o.effects| > 0 && o.effects[|o.effects| - 1] == Pause
    ensures Play !in o.effects
  {
    Outcome(p, StopDisc(p.discAnimation, p.disc.Some?) + StopArm(p.armAnimation, p.arm.Some?) + [Pause])
  }

  /** `start` turns the music on exactly when both parts are present, and
      otherwise leaves it alone. */
  lemma StartMusic(p: Player)
    ensures Music(Start(p).effects) == if Complete(p) then Some(true) else None
  {
  }

  /** `stop` always leaves the music paused. */
  lemma StopMusic(p: Player)
    ensures Music(Stop(p).effects) == Some(false)
  {
    var e := Stop(p).effects;
    assert e == e[..|e| - 1] + [Pause];
    MusicAppend(e[..|e| - 1], [Pause]);
  }

  /** `stop` pauses the music exactly once. */
  lemma StopPausesOnce(p: Player)
    ensures multiset(Stop(p).effects)[Pause] == 1
  {
    var before := StopDisc(p.discAnimation, p.disc.Some?) + StopArm(p.armAnimation, p.arm.Some?);
    assert Pause !in before;
    assert Stop(p).effects == before + [Pause];
  }

  /** `stop` kills exactly the stored disc and arm animations. */
  lemma StopKillsStored(p: Player)
    ensures forall t: nat :: KillDisc(t) in Stop(p).effects <==> p.discAnimation == Some(t)
    ensures forall t: nat :: KillArm(t) in Stop(p).effects <==> p.armAnimation == Some(t)
  {
    var disc := StopDisc(p.discAnimation, p.disc.Some?);
    var arm := StopArm(p.armAnimation, p.arm.Some?);
    assert Stop(p).effects == disc + arm + [Pause];
  }

  /** `handleClick`: stops when playing, starts when stopped, flips the flag
      either way, then flashes the cursor. */
  function HandleClick(p: Player): (o: Outcome)
    ensures o.player.isPlaying == !p.isPlaying
    ensures |o.effects| > 0 && o.effects[|o.effects| - 1] == FlashCursor
    ensures o.player.disc == p.disc && o.player.arm == p.arm
    ensures o.player.interactiveObjects == p.interactiveObjects
    ensures p.isPlaying ==> o.player == p.(isPlaying := false)
                            && o.effects == Stop(p).effects + [FlashCursor]
    ensures !p.isPlaying ==> o.player == Start(p).player.(isPlaying := true)
                             && o.effects == Start(p).effects + [FlashCursor]
  {
    var q := if p.isPlaying then Stop(p) else Start(p);
    Outcome(q.player.(isPlaying := !q.player.isPlaying), q.effects + [FlashCursor])
  }

  /** After a click the music is paused if the player was playing, playing
      if it was stopped and complete, and untouched otherwise. */
  lemma ClickMusic(p: Player)
    ensures Music(HandleClick(p).effects)
            == if p.isPlaying then Some(false) else if Complete(p) then Some(true) else None
  {
    var q := if p.isPlaying then Stop(p) else Start(p);
    assert HandleClick(p).effects == q.effects + [FlashCursor];
    MusicAppend(q.effects, [FlashCursor]);
    if p.isPlaying { StopMusic(p); } else { StartMusic(p); }
  }

  /** A click plays the music exactly when it starts a complete player, and
      pauses it exactly when it stops a playing one. */
  lemma ClickPlaysOrPauses(p: Player)
    ensures Play in HandleClick(p).effects <==> !p.isPlaying && Complete(p)
    ensures Pause in HandleClick(p).effects <==> p.isPlaying
  {
    var q := if p.isPlaying then Stop(p) else Start(p);
    assert HandleClick(p).effects == q.effects + [FlashCursor];
  }

  /** A click that starts a complete player stores the tweens it spins,
      and the next click kills exactly those two. */
  lemma SecondClickKillsWhatFirstStarted(p: Player)
    requires !p.isPlaying && Complete(p)
    ensures var e := HandleClick(HandleClick(p).player).effects;
            && KillDisc(p.nextTween) in e && KillArm(p.nextTween + 1) in e
            && (forall t: nat :: KillDisc(t) in e ==> t == p.nextTween)
            && (forall t: nat :: KillArm(t) in e ==> t == p.nextTween + 1)
  {
    var q := HandleClick(p).player;
    StopKillsStored(q);
  }

  /** `isVinylObject`: false for a missing object; otherwise true exactly
      when the name contains "vinyl", "disc" or "arm", or the object is in
      the interactive list. */
  function IsVinylObject(p: Player, obj: Option<Node>): (b: bool)
    ensures obj.None? ==> !b
    ensures obj.Some? ==>
              (b <==> || Text.Contains(obj.value.name, "vinyl")
                      || Text.Contains(obj.value.name, "disc")
                      || Text.Contains(obj.value.name, "arm")
                      || obj.value in p.interactiveObjects)
  {
    match obj
    case None => false
    case Some(o) =>
      || Text.Includes(o.name, "vinyl")
      || Text.Includes(o.name, "disc")
      || Text.Includes(o.name, "arm")
      || o in p.interactiveObjects
  }

  /** `getState`. */
  function GetState(p: Player): bool {
    p.isPlaying
  }

  /** `dispose`: a `stop`, then an empty interactive list. The flag is left
      as it was and the parts stay flagged interactive, so afterwards only
      a name marks a node as part of the player. */
  function Dispose(p: Player): (o: Outcome)
    ensures o.player == p.(interactiveObjects := [])
    ensures o.player.interactiveObjects == []
    ensures o.player.isPlaying == p.isPlaying && o.player.flagged == p.flagged
    ensures o.effects == Stop(p).effects
    ensures forall n :: IsVinylObject(o.player, n) == IsVinylObject(New(), n)
  {
    var s := Stop(p);
    Outcome(s.player.(interactiveObjects := []), s.effects)
  }

  /** `dispose` while playing pauses the music but leaves the flag set. */
  lemma DisposeWhilePlayingDesyncs(p: Player, before: bool)
    requires p.isPlaying
    ensures GetState(Dispose(p).player) && !Audible(before, Dispose(p).effects)
  {
    StopMusic(p);
  }

  /** `n` clicks in a row: the player after them and every effect issued. */
  function Clicks(p: Player, n: nat): Outcome
    decreases n
  {
    if n == 0 then Outcome(p, [])
    else
      var first := HandleClick(p);
      var rest := Clicks(first.player, n - 1);
      Outcome(rest.player, first.effects + rest.effects)
  }

  /** The flag alternates strictly: after `n` clicks it is flipped exactly
      when `n` is odd; the parts never change. */
  lemma {:induction false} ClicksAlternate(p: Player, n: nat)
    ensures Clicks(p, n).player.isPlaying == (p.isPlaying != (n % 2 == 1))
    ensures Clicks(p, n).player.disc == p.disc && Clicks(p, n).player.arm == p.arm
    decreases n
  {
    if n > 0 {
      var first := HandleClick(p);
      assert first.player.isPlaying == !p.isPlaying;
      assert Clicks(p, n).player == Clicks(first.player, n - 1).player;
      ClicksAlternate(first.player, n - 1);
    }
  }

  /** A fresh player reports playing after `n` clicks exactly when `n` is odd. */
  lemma GetStateAfterClicks(n: nat)
    ensures GetState(Clicks(New(), n).player) == (n % 2 == 1)
  {
    ClicksAlternate(New(), n);
  }

  /** With both parts present, clicking keeps the music in step with the
      flag: if it was audible exactly when playing, it still is. */
  lemma {:induction false} ClicksKeepMusicInStep(p: Player, n: nat, before: bool)
    requires Complete(p) && before == p.isPlaying
    ensures Audible(before, Clicks(p, n).effects) == Clicks(p, n).player.isPlaying
    decreases n
  {
    if n > 0 {
      var first := HandleClick(p);
      assert Complete(first.player);
      var rest := Clicks(first.player, n - 1);
      assert Clicks(p, n) == Outcome(rest.player, first.effects + rest.effects);
      var after := Audible(before, first.effects);
      ClickMusic(p);
      assert after == first.player.isPlaying;
      ClicksKeepMusicInStep(first.player, n - 1, after);
      AudibleAppend(before, first.effects, rest.effects);
    }
  }

  /** A player initialized with a disc and an arm, then clicked `n` times,
      has its music audible exactly when `getState` says it is playing. */
  lemma InitializedPlayerStaysInStep(disc: Node, arm: Node, body: Option<Node>, n: nat)
    ensures var o := Clicks(Initialize(New(), Some(disc), Some(arm), body), n);
            Audible(false, o.effects) == GetState(o.player)
  {
    ClicksKeepMusicInStep(Initialize(New(), Some(disc), Some(arm), body), n, false);
  }

  /** Without a disc or an arm, one click marks a stopped player playing
      although no music was started. */
  lemma ClickWithoutPartsDesyncs(p: Player)
    requires !Complete(p) && !p.isPlaying
    ensures GetState(HandleClick(p).player) && !Audible(false, HandleClick(p).effects)
  {
    ClickMusic(p);
  }

  /** Calling `initialize` twice appends every present part twice. */
  lemma InitializeTwiceDuplicates(p: Player, disc: Option<Node>, arm: Option<Node>, body: Option<Node>)
    ensures var r := Initialize(Initialize(p, disc, arm, body), disc, arm, body);
            r.interactiveObjects == p.interactiveObjects + Present(disc, arm, body) + Present(disc, arm, body)
  {
  }

  /** Every part `initialize` received is recognised as a vinyl object,
      whatever its name. */
  lemma InitializedPartsAreVinyl(p: Player, disc: Option<Node>, arm: Option<Node>, body: Option<Node>, n: Node)
    requires n in Present(disc, arm, body)
    ensures IsVinylObject(Initialize(p, disc, arm, body), Some(n))
  {
  }
}
