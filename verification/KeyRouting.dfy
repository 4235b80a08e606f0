/** Key reports on their way from the keyboard: the cycle-key gate of g15daemon_send_event and the
    uinput plugin that turns key states into key-down and key-up codes. */
module KeyRouting {
  type Keys = bv32

  /** One changed key state as the watch thread reports it, with the time in milliseconds and what
      stands ready to receive it. listens: the foreground screen has a plugin; os: an OS keyboard
      handler is installed; remote: a client has taken over the keys. */
  datatype Report = Report(keys: Keys, time: nat, listens: bool, os: bool, remote: bool)

  /** NullPlugin: a press is handed to the plugin of a screen that has none. The source follows the
      null pointer there, and the daemon does not get past it. */
  datatype Effect = ToPlugin(keys: Keys) | ToOs(keys: Keys) | ToRemote(keys: Keys) | CycleScreens | NullPlugin

  function Common(keys: Keys, mask: Keys): Keys {
    keys & mask
  }

  predicate Touches(keys: Keys, cycleKey: Keys) {
    Common(keys, cycleKey) != 0
  }

  function With(keys: Keys, cycleKey: Keys): Keys {
    keys | cycleKey
  }

  function Without(keys: Keys, cycleKey: Keys): Keys {
    keys & !cycleKey
  }

  /** Milliseconds between two readings of the 32-bit clock. */
  function Elapsed(since: nat, now: nat): nat {
    (now - since) % 0x1_0000_0000
  }

  /** What one report leads to, told from it and the one before: nothing while the cycle key is
      held; on its release one screen change or one press-and-release pair; otherwise forwarding. */
  function Response(cycleKey: Keys, before: Report, now: Report): seq<Effect> {
    if Touches(now.keys, cycleKey) then []
    else if Touches(before.keys, cycleKey) then
      if Elapsed(before.time, now.time) < 500 then [CycleScreens]
      else if !now.listens then [NullPlugin]
      else [ToPlugin(With(now.keys, cycleKey)), ToPlugin(Without(now.keys, cycleKey))]
    else if !now.listens then []
    else if now.remote then [ToPlugin(now.keys), ToRemote(now.keys)]
    else if now.os then [ToPlugin(now.keys), ToOs(now.keys)]
    else [ToPlugin(now.keys)]
  }

  /** A long press of the cycle key is handed to the foreground plugin without a check: the daemon
      survives the report if there is one when it ends. */
  predicate Deliverable(cycleKey: Keys, before: Report, now: Report) {
    Touches(now.keys, cycleKey) || !Touches(before.keys, cycleKey)
    || Elapsed(before.time, now.time) < 500 || now.listens
  }

  /** The static variables of send_event. */
  class Gate {
    const cycleKey: Keys
    var lastkeys: Keys
    var clicktime: nat

    constructor (cycleKey: Keys)
      ensures this.cycleKey == cycleKey && lastkeys == 0 && clicktime == 0
    {
      this.cycleKey := cycleKey;
      lastkeys, clicktime := 0, 0;
    }

    /** The two variables remember the previous report as far as the cycle key is concerned,
        although lastkeys is left behind when no plugin listens. */
    ghost predicate Remembers(before: Report)
      reads this
    {
      && (Touches(lastkeys, cycleKey) <==> Touches(before.keys, cycleKey))
      && (Touches(before.keys, cycleKey) ==> clicktime == before.time)
    }

    /** A KEYPRESS event; alive says whether the daemon gets past it. */
    method KeyPress(now: Report, ghost before: Report) returns (effects: seq<Effect>, alive: bool)
      requires Remembers(before)
      modifies this
      ensures effects == Response(cycleKey, before, now) && alive == Deliverable(cycleKey, before, now)
      ensures alive ==> Remembers(now)
      ensures clicktime == if Touches(now.keys, cycleKey) then now.time else old(clicktime)
      ensures alive ==> lastkeys == if effects == [] && !Touches(now.keys, cycleKey) then old(lastkeys) else now.keys
    {
      hide Touches, Elapsed, With, Without;
      effects, alive := [], true;
      var value := now.keys;
      if !Touches(value, cycleKey) && !Touches(lastkeys, cycleKey) {
        if !now.listens {
          return;
        }
        effects := [ToPlugin(value)];
        if now.os && !now.remote {
          effects := effects + [ToOs(value)];
        }
        if now.remote {
          effects := effects + [ToRemote(value)];
        }
      } else {
        if Touches(value, cycleKey) {
          clicktime := now.time;
        } else {
          var unclick := now.time;
          if Elapsed(clicktime, unclick) < 500 {
            effects := [CycleScreens];
          } else if !now.listens {
            return [NullPlugin], false;
          } else {
            effects := [ToPlugin(With(value, cycleKey))];
            effects := effects + [ToPlugin(Without(value, cycleKey))];
          }
        }
      }
      lastkeys := value;
    }
  }

  const START := Report(0, 0, false, false, false)

  /** The report before the i-th of a run that begins with no keys down. */
  function Before(reports: seq<Report>, i: nat): Report
    requires i <= |reports|
  {
    if i == 0 then START else reports[i - 1]
  }

  /** The daemon has got past the first n reports of a run. */
  predicate Alive(cycleKey: Keys, reports: seq<Report>, n: nat)
    requires n <= |reports|
  {
    n == 0 || (Alive(cycleKey, reports, n - 1) && Deliverable(cycleKey, Before(reports, n - 1), reports[n - 1]))
  }

  /** All effects of the first n reports of a run, which end with the daemon. */
  function Effects(cycleKey: Keys, reports: seq<Report>, n: nat): seq<Effect>
    requires n <= |reports|
  {
    if n == 0 then []
    else
      var before := Effects(cycleKey, reports, n - 1);
      if Alive(cycleKey, reports, n - 1) then before + Response(cycleKey, Before(reports, n - 1), reports[n - 1])
      else before
  }

  lemma {:induction false} NothingMore(cycleKey: Keys, reports: seq<Report>, m: nat, n: nat)
    requires m <= n <= |reports| && !Alive(cycleKey, reports, m)
    ensures !Alive(cycleKey, reports, n) && Effects(cycleKey, reports, n) == Effects(cycleKey, reports, m)
  {
    hide Response, Deliverable;
    if m < n {
      NothingMore(cycleKey, reports, m, n - 1);
    }
  }

  /** The gate over a whole run: its two variables are as good as the full history. */
  method KeyPresses(gate: Gate, reports: seq<Report>) returns (effects: seq<Effect>, alive: bool)
    requires gate.lastkeys == 0
    modifies gate
    ensures effects == Effects(gate.cycleKey, reports, |reports|)
    ensures alive == Alive(gate.cycleKey, reports, |reports|)
  {
    hide Response, Touches, Deliverable;
    effects, alive := [], true;
    NoKeyTouches(gate.cycleKey);
    for i := 0 to |reports|
      invariant gate.Remembers(Before(reports, i)) && alive && Alive(gate.cycleKey, reports, i)
      invariant effects == Effects(gate.cycleKey, reports, i)
    {
      var e: seq<Effect>;
      e, alive := gate.KeyPress(reports[i], Before(reports, i));
      effects := effects + e;
      if !alive {
        NothingMore(gate.cycleKey, reports, i + 1, |reports|);
        return;
      }
    }
  }

  lemma NoKeyTouches(cycleKey: Keys)
    ensures !Touches(0, cycleKey)
  {
  }

  /** No key state in which the cycle key is down ever reaches the OS handler or a remote one. */
  lemma {:induction false} CycleKeyKeptBack(cycleKey: Keys, reports: seq<Report>, n: nat, keys: Keys)
    requires n <= |reports|
    requires ToOs(keys) in Effects(cycleKey, reports, n) || ToRemote(keys) in Effects(cycleKey, reports, n)
    ensures !Touches(keys, cycleKey)
  {
    hide Response, Touches, Alive;
    if ToOs(keys) in Effects(cycleKey, reports, n - 1) || ToRemote(keys) in Effects(cycleKey, reports, n - 1) {
      CycleKeyKeptBack(cycleKey, reports, n - 1, keys);
    } else {
      ResponseKeepsBack(cycleKey, Before(reports, n - 1), reports[n - 1], keys);
    }
  }

  lemma ResponseKeepsBack(cycleKey: Keys, before: Report, now: Report, keys: Keys)
    ensures var r := Response(cycleKey, before, now);
            ToOs(keys) in r || ToRemote(keys) in r ==> !Touches(keys, cycleKey)
  {
    hide Touches, With, Without;
  }

  /** The i-th report releases the cycle key. */
  predicate Releases(cycleKey: Keys, reports: seq<Report>, i: nat)
    requires i < |reports|
  {
    !Touches(reports[i].keys, cycleKey) && Touches(Before(reports, i).keys, cycleKey)
  }

  function ShortReleases(cycleKey: Keys, reports: seq<Report>, n: nat): nat
    requires n <= |reports|
  {
    if n == 0 then 0
    else ShortReleases(cycleKey, reports, n - 1)
         + if Alive(cycleKey, reports, n - 1) && Releases(cycleKey, reports, n - 1)
                 && Elapsed(Before(reports, n - 1).time, reports[n - 1].time) < 500
           then 1 else 0
  }

  function Cycles(effects: seq<Effect>): nat {
    multiset(effects)[CycleScreens]
  }

  /** The screens change exactly once for every short release the daemon lives to see, and at no
      other time. */
  lemma {:induction false} OneCyclePerShortRelease(cycleKey: Keys, reports: seq<Report>, n: nat)
    requires n <= |reports|
    ensures Cycles(Effects(cycleKey, reports, n)) == ShortReleases(cycleKey, reports, n)
  {
    hide Touches, Elapsed, Response, Alive;
    if n > 0 {
      OneCyclePerShortRelease(cycleKey, reports, n - 1);
      CyclesInResponse(cycleKey, Before(reports, n - 1), reports[n - 1]);
    }
  }

  lemma CyclesInResponse(cycleKey: Keys, before: Report, now: Report)
    ensures Cycles(Response(cycleKey, before, now))
         == if !Touches(now.keys, cycleKey) && Touches(before.keys, cycleKey) && Elapsed(before.time, now.time) < 500
            then 1 else 0
  {
    hide Touches, Elapsed, With, Without;
  }

  /** The cycle key has been down since report p of the run, which pressed it, and the clock has not
      run back since. */
  ghost predicate HeldSince(cycleKey: Keys, reports: seq<Report>, p: nat)
    requires p < |reports|
  {
    && !Touches(Before(reports, p).keys, cycleKey)
    && (forall i :: p <= i < |reports| ==> Touches(reports[i].keys, cycleKey))
    && (forall i, j :: p <= i <= j < |reports| ==> reports[i].time <= reports[j].time)
  }

  lemma {:induction false} EffectsOfPrefix(cycleKey: Keys, reports: seq<Report>, m: nat, n: nat)
    requires n <= m <= |reports|
    ensures Alive(cycleKey, reports[..m], n) == Alive(cycleKey, reports, n)
    ensures Effects(cycleKey, reports[..m], n) == Effects(cycleKey, reports, n)
  {
    hide Response, Deliverable;
    if n > 0 {
      EffectsOfPrefix(cycleKey, reports, m, n - 1);
    }
  }

  /** Nothing at all comes of the reports of a hold. */
  lemma {:induction false} HoldIsSilent(cycleKey: Keys, reports: seq<Report>, p: nat, n: nat)
    requires p <= n <= |reports| && forall i :: p <= i < n ==> Touches(reports[i].keys, cycleKey)
    ensures Effects(cycleKey, reports, n) == Effects(cycleKey, reports, p)
    ensures Alive(cycleKey, reports, n) == Alive(cycleKey, reports, p)
  {
    hide Touches;
    if p < n {
      HoldIsSilent(cycleKey, reports, p, n - 1);
    }
  }

  predicate ReleasedBy(cycleKey: Keys, last: Report, release: Report) {
    !Touches(release.keys, cycleKey) && last.time <= release.time
  }

  /** A release within the range of the clock, with or without a plugin in front. */
  predicate ReleasedInTime(cycleKey: Keys, last: Report, release: Report, listens: bool) {
    ReleasedBy(cycleKey, last, release) && release.time - last.time < 0x1_0000_0000 && release.listens == listens
  }

  /** What is documented for a hold from time pressed to time released: a screen change if that is
      less than half a second, the key itself otherwise. */
  function Documented(cycleKey: Keys, keys: Keys, pressed: nat, released: nat): seq<Effect> {
    if released - pressed < 500 then [CycleScreens]
    else [ToPlugin(With(keys, cycleKey)), ToPlugin(Without(keys, cycleKey))]
  }

  /** A whole hold comes out as documented exactly when it really was short, or half a second had
      passed since the last report during it and the foreground screen has a plugin. */
  lemma HoldAsDocumented(cycleKey: Keys, reports: seq<Report>, p: nat, release: Report)
    requires p < |reports| && Alive(cycleKey, reports, p) && HeldSince(cycleKey, reports, p)
    requires ReleasedBy(cycleKey, reports[|reports| - 1], release)
    ensures var pressed, last := reports[p].time, reports[|reports| - 1].time;
            Effects(cycleKey, reports + [release], |reports| + 1)
              == Effects(cycleKey, reports, p) + Documented(cycleKey, release.keys, pressed, release.time)
            <==> release.time - pressed < 500 || (Elapsed(last, release.time) >= 500 && release.listens)
  {
    hide Touches, Elapsed, Alive, Response, Documented;
    var all := reports + [release];
    assert all[..|reports|] == reports;
    EffectsOfPrefix(cycleKey, all, |reports|, |reports|);
    HoldIsSilent(cycleKey, reports, p, |reports|);
    var last := reports[|reports| - 1];
    assert last.time >= reports[p].time;
    assert Before(all, |reports|) == last;
    Cancel(Effects(cycleKey, reports, p), Response(cycleKey, last, release),
           Documented(cycleKey, release.keys, reports[p].time, release.time));
    ReleaseAsDocumented(cycleKey, last, release, reports[p].time);
  }

  lemma ReleaseAsDocumented(cycleKey: Keys, last: Report, release: Report, pressed: nat)
    requires Touches(last.keys, cycleKey) && ReleasedBy(cycleKey, last, release) && pressed <= last.time
    ensures Response(cycleKey, last, release) == Documented(cycleKey, release.keys, pressed, release.time)
       <==> release.time - pressed < 500 || (Elapsed(last.time, release.time) >= 500 && release.listens)
  {
    hide Touches, Elapsed, With, Without;
    ElapsedAtMost(pressed, last.time, release.time);
    assert |[CycleScreens]| == |[NullPlugin]| == 1;
    assert |[ToPlugin(With(release.keys, cycleKey)), ToPlugin(Without(release.keys, cycleKey))]| == 2;
  }

  lemma Cancel(a: seq<Effect>, b: seq<Effect>, c: seq<Effect>)
    ensures a + b == a + c <==> b == c
  {
    if a + b == a + c {
      assert (a + b)[|a|..] == b && (a + c)[|a|..] == c;
    }
  }

  lemma ElapsedAtMost(pressed: nat, last: nat, now: nat)
    requires pressed <= last <= now
    ensures Elapsed(last, now) <= now - pressed
    ensures now - last < 0x1_0000_0000 ==> Elapsed(last, now) == now - last
  {
  }

  /** Before the release: whenever the key is let go, within the range of the clock, the hold comes
      out as documented - if and only if no report has come in later than the press itself and the
      foreground screen has a plugin. */
  lemma HoldAlwaysAsDocumented(cycleKey: Keys, reports: seq<Report>, p: nat, listens: bool)
    requires p < |reports| && HeldSince(cycleKey, reports, p)
    ensures var pressed, last := reports[p].time, reports[|reports| - 1];
            (forall release: Report :: ReleasedInTime(cycleKey, last, release, listens) ==>
               Response(cycleKey, last, release) == Documented(cycleKey, release.keys, pressed, release.time))
            <==> last.time == pressed && listens
  {
    hide Touches, Elapsed, With, Without, Response, Documented;
    var pressed, last := reports[p].time, reports[|reports| - 1];
    assert last.time >= pressed;
    if last.time == pressed && listens {
      forall release: Report | ReleasedInTime(cycleKey, last, release, listens)
        ensures Response(cycleKey, last, release) == Documented(cycleKey, release.keys, pressed, release.time)
      {
        ElapsedAtMost(pressed, last.time, release.time);
        ReleaseAsDocumented(cycleKey, last, release, pressed);
      }
    } else {
      var time := if !listens then last.time + 500 else if last.time < pressed + 500 then pressed + 500 else last.time;
      var release := Report(0, time, listens, true, false);
      NoKeyTouches(cycleKey);
      ElapsedAtMost(pressed, last.time, release.time);
      ReleaseAsDocumented(cycleKey, last, release, pressed);
      assert ReleasedInTime(cycleKey, last, release, listens);
    }
  }

  const G15_KEY_G1: Keys := 0x1
  const G15_KEY_L1: Keys := 0x40_0000

  /** Such a hold: L1 held for 700 ms with G1 pressed at 600 ms counts as a click; held alone it
      goes to the plugin. */
  lemma HoldTimedFromLastReport()
    ensures var reports := [Report(G15_KEY_L1, 0, true, true, false),
                            Report(G15_KEY_L1 | G15_KEY_G1, 600, true, true, false), Report(0, 700, true, true, false)];
            Effects(G15_KEY_L1, reports, 3) == [CycleScreens]
    ensures var quiet := [Report(G15_KEY_L1, 0, true, true, false), Report(0, 700, true, true, false)];
            Effects(G15_KEY_L1, quiet, 2) == [ToPlugin(G15_KEY_L1), ToPlugin(0)]
  {
    var reports := [Report(G15_KEY_L1, 0, true, true, false), Report(G15_KEY_L1 | G15_KEY_G1, 600, true, true, false),
                    Report(0, 700, true, true, false)];
    assert Effects(G15_KEY_L1, reports, 1) == [];
    assert Effects(G15_KEY_L1, reports, 2) == [];
    var quiet := [Report(G15_KEY_L1, 0, true, true, false), Report(0, 700, true, true, false)];
    assert Effects(G15_KEY_L1, quiet, 1) == [];
  }

  /** A plain hold of 700 ms while the daemon's own screen, which has no plugin, is in front. */
  lemma HoldWithoutPlugin()
    ensures var reports := [Report(G15_KEY_L1, 0, false, true, false), Report(0, 700, false, true, false)];
            && Elapsed(reports[0].time, reports[1].time) >= 500
            && Effects(G15_KEY_L1, reports, 2) == [NullPlugin] && !Alive(G15_KEY_L1, reports, 2)
  {
    var reports := [Report(G15_KEY_L1, 0, false, true, false), Report(0, 700, false, true, false)];
    assert Effects(G15_KEY_L1, reports, 1) == [];
    assert Alive(G15_KEY_L1, reports, 1);
  }

  datatype KeyCode = Down(code: nat) | Up(code: nat)

  const GKEY_OFFSET := 167
  const MAPPED_KEYS := 27
  const MAPPED_WITHOUT_L := 22

  function KeyMask(b: nat): Keys
    requires b < 32
  {
    1 << b
  }

  /** The key with mask 1 << b is down. The plugin's 27 keys have the masks 1 << 0 (G1) to
      1 << 26 (L5) and, in the same order, the codes from 167 on. */
  predicate KeyDown(keys: Keys, b: nat)
    requires b < 32
  {
    Common(keys, KeyMask(b)) != 0
  }

  function Edge(current: Keys, last: Keys, b: nat): seq<KeyCode>
    requires b < 32
  {
    if KeyDown(current, b) && !KeyDown(last, b) then [Down(GKEY_OFFSET + b)]
    else if !KeyDown(current, b) && KeyDown(last, b) then [Up(GKEY_OFFSET + b)]
    else []
  }

  function Edges(current: Keys, last: Keys, n: nat): seq<KeyCode>
    requires n <= 32
  {
    if n == 0 then [] else Edges(current, last, n - 1) + Edge(current, last, n - 1)
  }

  function Mapped(mapLkeys: bool): nat {
    if mapLkeys then MAPPED_KEYS else MAPPED_WITHOUT_L
  }

  /** The uinput plugin with its static lastkeys. */
  class UinputPlugin {
    const mapLkeys: bool
    var lastkeys: Keys

    constructor (mapLkeys: bool)
      ensures this.mapLkeys == mapLkeys && lastkeys == 0
    {
      this.mapLkeys := mapLkeys;
      lastkeys := 0;
    }

    /** g15_process_keys: the same test for each key in turn, the five L keys only when mapped. */
    method KeyEvent(keys: Keys) returns (codes: seq<KeyCode>)
      modifies this
      ensures lastkeys == keys
      ensures codes == Edges(keys, old(lastkeys), Mapped(mapLkeys))
    {
      hide KeyDown;
      codes := [];
      for b := 0 to Mapped(mapLkeys)
        invariant codes == Edges(keys, lastkeys, b) && lastkeys == old(lastkeys)
      {
        if KeyDown(keys, b) && !KeyDown(lastkeys, b) {
          codes := codes + [Down(GKEY_OFFSET + b)];
        } else if !KeyDown(keys, b) && KeyDown(lastkeys, b) {
          codes := codes + [Up(GKEY_OFFSET + b)];
        } else {
          assert codes + [] == codes;
        }
      }
      lastkeys := keys;
    }
  }

  /** The state before the next one of a run that begins with no keys down. */
  function LastOf(states: seq<Keys>): Keys {
    if |states| == 0 then 0 else states[|states| - 1]
  }

  /** The codes sent over a run of forwarded states. */
  function Codes(states: seq<Keys>, mapLkeys: bool): seq<KeyCode> {
    if |states| == 0 then []
    else
      var before := states[..|states| - 1];
      Codes(before, mapLkeys) + Edges(states[|states| - 1], LastOf(before), Mapped(mapLkeys))
  }

  /** The codes of one key event come in the order of the keys, each at most once. */
  lemma {:induction false} EdgesInOrder(current: Keys, last: Keys, n: nat, i: nat, j: nat)
    requires n <= 32 && i < |Edges(current, last, n)|
    ensures GKEY_OFFSET <= Edges(current, last, n)[i].code < GKEY_OFFSET + n
    ensures i < j < |Edges(current, last, n)| ==> Edges(current, last, n)[i].code < Edges(current, last, n)[j].code
  {
    hide KeyDown;
    var before := Edges(current, last, n - 1);
    if i < |before| {
      EdgesInOrder(current, last, n - 1, i, if j < |before| then j else i);
    }
  }

  /** What the kernel believes to be held after some codes. */
  function Held(held: set<nat>, codes: seq<KeyCode>): set<nat> {
    if |codes| == 0 then held
    else
      var before := Held(held, codes[..|codes| - 1]);
      match codes[|codes| - 1]
      case Down(c) => before + {c}
      case Up(c) => before - {c}
  }

  /** Every down code finds its key up and every up code finds it down, so that for each key the
      two strictly alternate. */
  predicate Alternates(held: set<nat>, codes: seq<KeyCode>) {
    |codes| == 0
    || (Alternates(held, codes[..|codes| - 1])
        && (codes[|codes| - 1].Down? <==> codes[|codes| - 1].code !in Held(held, codes[..|codes| - 1])))
  }

  lemma {:induction false} HeldConcat(held: set<nat>, a: seq<KeyCode>, b: seq<KeyCode>)
    ensures Held(held, a + b) == Held(Held(held, a), b)
    ensures Alternates(held, a + b) <==> Alternates(held, a) && Alternates(Held(held, a), b)
  {
    if |b| == 0 {
      assert a + b == a;
    } else {
      HeldConcat(held, a, b[..|b| - 1]);
      assert (a + b)[..|a + b| - 1] == a + b[..|b| - 1];
    }
  }

  /** The mapped image of a key state. */
  function Image(keys: Keys, n: nat): set<nat>
    requires n <= 32
  {
    set b | 0 <= b < n && KeyDown(keys, b) :: GKEY_OFFSET + b
  }

  /** The part of the image of a state that belongs to keys from the n-th on. */
  function Later(keys: Keys, n: nat, m: nat): set<nat>
    requires m <= 32
  {
    set b | n <= b < m && KeyDown(keys, b) :: GKEY_OFFSET + b
  }

  lemma {:induction false} EdgesReplayed(current: Keys, last: Keys, n: nat, m: nat)
    requires n <= m <= 32
    ensures Alternates(Image(last, m), Edges(current, last, n))
    ensures Held(Image(last, m), Edges(current, last, n))
         == Image(current, n) + Later(last, n, m)
  {
    hide KeyDown, Edge;
    assert Image(last, m) == Image(current, 0) + Later(last, 0, m);
    if n > 0 {
      EdgesReplayed(current, last, n - 1, m);
      var edge := Edge(current, last, n - 1);
      HeldConcat(Image(last, m), Edges(current, last, n - 1), edge);
      var before := Image(current, n - 1) + Later(last, n - 1, m);
      EdgeReplayed(current, last, n - 1, m, before);
    }
  }

  lemma EdgeReplayed(current: Keys, last: Keys, k: nat, m: nat, before: set<nat>)
    requires k < m <= 32
    requires before == Image(current, k) + Later(last, k, m)
    ensures Alternates(before, Edge(current, last, k))
    ensures Held(before, Edge(current, last, k))
         == Image(current, k + 1) + Later(last, k + 1, m)
  {
    hide KeyDown;
    var code := GKEY_OFFSET + k;
    var after := Image(current, k + 1) + Later(last, k + 1, m);
    assert code in before <==> KeyDown(last, k);
    assert code in after <==> KeyDown(current, k);
    assert after - {code} == before - {code};
    var edge := Edge(current, last, k);
    if |edge| == 1 {
      assert edge[..0] == [];
    }
  }

  /** Over any run of forwarded states the codes sent leave held exactly the mapped image of the
      last one forwarded, and down and up strictly alternate for every key. */
  lemma {:induction false} CodesReplayed(states: seq<Keys>, mapLkeys: bool)
    ensures Held({}, Codes(states, mapLkeys)) == Image(LastOf(states), Mapped(mapLkeys))
    ensures Alternates({}, Codes(states, mapLkeys))
  {
    hide KeyDown, Edges;
    var m := Mapped(mapLkeys);
    NothingDown(m);
    if |states| > 0 {
      var before, last := states[..|states| - 1], states[|states| - 1];
      CodesReplayed(before, mapLkeys);
      EdgesReplayed(last, LastOf(before), m, m);
      HeldConcat({}, Codes(before, mapLkeys), Edges(last, LastOf(before), m));
      assert Image(last, m) + Later(LastOf(before), m, m) == Image(last, m);
    }
  }

  lemma NothingDown(m: nat)
    requires m <= 32
    ensures Image(0, m) == {}
  {
    forall b | 0 <= b < m ensures !KeyDown(0, b) {
      NoKeyDown(b);
    }
  }

  lemma NoKeyDown(b: nat)
    requires b < 32
    ensures !KeyDown(0, b)
  {
  }

  /** The key states a run hands to the OS handler, in order. */
  function OsStates(effects: seq<Effect>): seq<Keys> {
    if |effects| == 0 then []
    else
      var e := effects[|effects| - 1];
      OsStates(effects[..|effects| - 1]) + if e.ToOs? then [e.keys] else []
  }

  lemma {:induction false} OsStatesFrom(effects: seq<Effect>, keys: Keys)
    ensures keys in OsStates(effects) ==> ToOs(keys) in effects
  {
    if |effects| > 0 {
      OsStatesFrom(effects[..|effects| - 1], keys);
    }
  }

  /** All codes that reach the kernel over the first n reports of a run. */
  function KernelCodes(cycleKey: Keys, reports: seq<Report>, n: nat, mapLkeys: bool): seq<KeyCode>
    requires n <= |reports|
  {
    Codes(OsStates(Effects(cycleKey, reports, n)), mapLkeys)
  }

  lemma OsStatesNext(effects: seq<Effect>, e: Effect)
    ensures OsStates(effects + [e]) == OsStates(effects) + if e.ToOs? then [e.keys] else []
  {
    assert (effects + [e])[..|effects|] == effects;
  }

  lemma CodesNext(states: seq<Keys>, keys: Keys, mapLkeys: bool)
    ensures Codes(states + [keys], mapLkeys) == Codes(states, mapLkeys) + Edges(keys, LastOf(states), Mapped(mapLkeys))
  {
    assert (states + [keys])[..|states|] == states;
  }

  /** The plugin as the OS handler: it is called for the effects that are meant for it. */
  method HandToOs(plugin: UinputPlugin, effects: seq<Effect>, ghost done: seq<Effect>) returns (codes: seq<KeyCode>)
    requires plugin.lastkeys == LastOf(OsStates(done))
    modifies plugin
    ensures plugin.lastkeys == LastOf(OsStates(done + effects))
    ensures Codes(OsStates(done), plugin.mapLkeys) + codes == Codes(OsStates(done + effects), plugin.mapLkeys)
  {
    hide Codes, Edges, OsStates;
    codes := [];
    assert done + [] == done;
    for j := 0 to |effects|
      invariant plugin.lastkeys == LastOf(OsStates(done + effects[..j]))
      invariant Codes(OsStates(done), plugin.mapLkeys) + codes == Codes(OsStates(done + effects[..j]), plugin.mapLkeys)
    {
      OsStatesNext(done + effects[..j], effects[j]);
      assert done + effects[..j] + [effects[j]] == done + effects[..j + 1];
      if effects[j].ToOs? {
        CodesNext(OsStates(done + effects[..j]), effects[j].keys, plugin.mapLkeys);
        var c := plugin.KeyEvent(effects[j].keys);
        assert Codes(OsStates(done), plugin.mapLkeys) + (codes + c)
           == Codes(OsStates(done), plugin.mapLkeys) + codes + c;
        codes := codes + c;
      } else {
        assert OsStates(done + effects[..j]) + [] == OsStates(done + effects[..j]);
      }
    }
    assert effects[..|effects|] == effects;
  }

  /** From the keyboard to the kernel: the gate with the uinput plugin as its OS handler. */
  method KeyboardToKernel(gate: Gate, plugin: UinputPlugin, reports: seq<Report>) returns (codes: seq<KeyCode>)
    requires gate.lastkeys == 0 && plugin.lastkeys == 0
    modifies gate, plugin
    ensures codes == KernelCodes(gate.cycleKey, reports, |reports|, plugin.mapLkeys)
  {
    hide Response, Codes, Edges, Touches, OsStates, Deliverable;
    codes := [];
    NoCodes(plugin.mapLkeys);
    NoKeyTouches(gate.cycleKey);
    for i := 0 to |reports|
      invariant gate.Remembers(Before(reports, i)) && Alive(gate.cycleKey, reports, i)
      invariant plugin.lastkeys == LastOf(OsStates(Effects(gate.cycleKey, reports, i)))
      invariant codes == KernelCodes(gate.cycleKey, reports, i, plugin.mapLkeys)
    {
      var effects, alive := gate.KeyPress(reports[i], Before(reports, i));
      var c := HandToOs(plugin, effects, Effects(gate.cycleKey, reports, i));
      codes := codes + c;
      if !alive {
        NothingMore(gate.cycleKey, reports, i + 1, |reports|);
        return;
      }
    }
  }

  lemma NoCodes(mapLkeys: bool)
    ensures OsStates([]) == [] && Codes([], mapLkeys) == []
  {
  }

  predicate ForOs(cycleKey: Keys, before: Report, now: Report) {
    !Touches(now.keys, cycleKey) && !Touches(before.keys, cycleKey) && now.listens && now.os && !now.remote
  }

  /** The i-th report is handed to the OS handler. */
  predicate HandedOn(cycleKey: Keys, reports: seq<Report>, i: nat)
    requires i < |reports|
  {
    Alive(cycleKey, reports, i) && ForOs(cycleKey, Before(reports, i), reports[i])
  }

  /** The key state last handed to the OS handler. */
  function LastHanded(cycleKey: Keys, reports: seq<Report>, n: nat): Keys
    requires n <= |reports|
  {
    if n == 0 then 0
    else if HandedOn(cycleKey, reports, n - 1) then reports[n - 1].keys
    else LastHanded(cycleKey, reports, n - 1)
  }

  lemma {:induction false} LastHandedIsLast(cycleKey: Keys, reports: seq<Report>, n: nat)
    requires n <= |reports|
    ensures LastOf(OsStates(Effects(cycleKey, reports, n))) == LastHanded(cycleKey, reports, n)
  {
    hide Touches, Response, Alive;
    if n > 0 {
      LastHandedIsLast(cycleKey, reports, n - 1);
      ResponseHandsOn(cycleKey, Effects(cycleKey, reports, n - 1), Before(reports, n - 1), reports[n - 1]);
    }
  }

  lemma ResponseHandsOn(cycleKey: Keys, effects: seq<Effect>, before: Report, now: Report)
    ensures OsStates(effects + Response(cycleKey, before, now))
         == OsStates(effects) + if ForOs(cycleKey, before, now) then [now.keys] else []
  {
    hide Touches, Elapsed, With, Without;
    var r := Response(cycleKey, before, now);
    if |r| == 0 {
      assert effects + r == effects;
    } else if |r| == 1 {
      OsStatesNext(effects, r[0]);
      assert effects + r == effects + [r[0]];
    } else {
      OsStatesNext(effects, r[0]);
      OsStatesNext(effects + [r[0]], r[1]);
      assert effects + r == effects + [r[0]] + [r[1]];
    }
  }

  /** What the kernel holds is at all times the image of the report last handed on; so it is what is
      pressed whenever the newest report was handed on, and otherwise what it was before. */
  lemma KernelHoldsLastHanded(cycleKey: Keys, reports: seq<Report>, n: nat, mapLkeys: bool)
    requires n <= |reports|
    ensures var held := Held({}, KernelCodes(cycleKey, reports, n, mapLkeys));
            && held == Image(LastHanded(cycleKey, reports, n), Mapped(mapLkeys))
            && (n > 0 ==> held == if HandedOn(cycleKey, reports, n - 1)
                                  then Image(reports[n - 1].keys, Mapped(mapLkeys))
                                  else Held({}, KernelCodes(cycleKey, reports, n - 1, mapLkeys)))
  {
    hide HandedOn, Codes, Effects, OsStates, Held, Image;
    CodesReplayed(OsStates(Effects(cycleKey, reports, n)), mapLkeys);
    LastHandedIsLast(cycleKey, reports, n);
    if n > 0 {
      CodesReplayed(OsStates(Effects(cycleKey, reports, n - 1)), mapLkeys);
      LastHandedIsLast(cycleKey, reports, n - 1);
    }
  }

  /** After a hold of the cycle key the kernel still holds the keys that were down before it: it is
      right exactly when the same mapped keys are down at the release. */
  lemma HeldAfterHold(cycleKey: Keys, reports: seq<Report>, p: nat, release: Report, mapLkeys: bool)
    requires p < |reports| && HeldSince(cycleKey, reports, p)
    requires ReleasedBy(cycleKey, reports[|reports| - 1], release)
    ensures Held({}, KernelCodes(cycleKey, reports + [release], |reports| + 1, mapLkeys))
              == Image(release.keys, Mapped(mapLkeys))
            <==> Image(release.keys, Mapped(mapLkeys)) == Image(LastHanded(cycleKey, reports, p), Mapped(mapLkeys))
  {
    hide Touches, Effects, OsStates, Codes, Held, Image, Alive;
    var all := reports + [release];
    KernelHoldsLastHanded(cycleKey, all, |all|, mapLkeys);
    assert Before(all, |reports|) == reports[|reports| - 1];
    HandedInPrefix(cycleKey, all, |reports|, |reports|);
    assert all[..|reports|] == reports;
    NothingHanded(cycleKey, reports, p, |reports|);
  }

  lemma {:induction false} HandedInPrefix(cycleKey: Keys, reports: seq<Report>, m: nat, n: nat)
    requires n <= m <= |reports|
    ensures LastHanded(cycleKey, reports[..m], n) == LastHanded(cycleKey, reports, n)
  {
    hide ForOs;
    if n > 0 {
      EffectsOfPrefix(cycleKey, reports, m, n - 1);
      HandedInPrefix(cycleKey, reports, m, n - 1);
    }
  }

  lemma {:induction false} NothingHanded(cycleKey: Keys, reports: seq<Report>, p: nat, n: nat)
    requires p <= n <= |reports| && forall i :: p <= i < n ==> Touches(reports[i].keys, cycleKey)
    ensures LastHanded(cycleKey, reports, n) == LastHanded(cycleKey, reports, p)
  {
    hide Touches, Alive;
    if p < n {
      NothingHanded(cycleKey, reports, p, n - 1);
    }
  }

  /** G1 pressed, then L1 with it, then both let go: no key is down, yet G1's code stays held. */
  lemma KeyLeftHeld(mapLkeys: bool)
    ensures var reports := [Report(G15_KEY_G1, 0, true, true, false),
                            Report(G15_KEY_G1 | G15_KEY_L1, 100, true, true, false), Report(0, 200, true, true, false)];
            Held({}, KernelCodes(G15_KEY_L1, reports, 3, mapLkeys)) == {GKEY_OFFSET}
  {
    hide Effects, OsStates, Codes, Held, Image;
    var reports := [Report(G15_KEY_G1, 0, true, true, false), Report(G15_KEY_G1 | G15_KEY_L1, 100, true, true, false),
                    Report(0, 200, true, true, false)];
    KernelHoldsLastHanded(G15_KEY_L1, reports, 3, mapLkeys);
    assert LastHanded(G15_KEY_L1, reports, 1) == G15_KEY_G1;
    assert LastHanded(G15_KEY_L1, reports, 2) == G15_KEY_G1;
    OnlyG1(Mapped(mapLkeys));
  }

  lemma OnlyG1(m: nat)
    requires 0 < m <= 32
    ensures Image(G15_KEY_G1, m) == {GKEY_OFFSET}
  {
    forall b | 0 <= b < m ensures KeyDown(G15_KEY_G1, b) <==> b == 0 {
      G1Down(b);
    }
    OnlyThat(G15_KEY_G1, m);
  }

  lemma OnlyThat(keys: Keys, m: nat)
    requires 0 < m <= 32 && forall b :: 0 <= b < m ==> (KeyDown(keys, b) <==> b == 0)
    ensures Image(keys, m) == {GKEY_OFFSET}
  {
    hide KeyDown;
    assert KeyDown(keys, 0);
    forall c ensures c in Image(keys, m) <==> c == GKEY_OFFSET {
      assert c == GKEY_OFFSET ==> c == GKEY_OFFSET + 0;
    }
  }

  lemma G1Down(b: nat)
    requires b < 32
    ensures KeyDown(G15_KEY_G1, b) <==> b == 0
  {
  }

  /** Whatever is pressed, the cycle key's own code is never held, at any point of any run. */
  lemma CycleKeyNeverHeld(cycleKey: Keys, cycleBit: nat, reports: seq<Report>, mapLkeys: bool, n: nat)
    requires cycleBit < MAPPED_KEYS && cycleKey == 1 << cycleBit && n <= |reports|
    ensures GKEY_OFFSET + cycleBit !in Held({}, KernelCodes(cycleKey, reports, n, mapLkeys))
  {
    hide KeyDown, Touches, Effects, OsStates, Codes, Image;
    var effects := Effects(cycleKey, reports, n);
    var keys := LastOf(OsStates(effects));
    CodesReplayed(OsStates(effects), mapLkeys);
    if |OsStates(effects)| > 0 {
      OsStatesFrom(effects, keys);
      CycleKeyKeptBack(cycleKey, reports, n, keys);
      KeyDownTouches(keys, cycleBit);
    }
    NotInImage(keys, cycleBit, Mapped(mapLkeys));
  }

  lemma NotInImage(keys: Keys, b: nat, m: nat)
    requires b < 32 && m <= 32 && (KeyDown(keys, b) ==> keys == 0)
    ensures GKEY_OFFSET + b !in Image(keys, m)
  {
    hide KeyDown;
    NothingDown(m);
  }

  lemma KeyDownTouches(keys: Keys, b: nat)
    requires b < 32
    ensures KeyDown(keys, b) <==> Touches(keys, KeyMask(b))
  {
    hide Common, KeyMask;
  }

  /** The masks of G1, G18, M1, MR, L1 and L5. */
  lemma SomeMasks()
    ensures KeyMask(0) == 0x1 && KeyMask(17) == 0x2_0000 && KeyMask(18) == 0x4_0000
    ensures KeyMask(21) == 0x20_0000 && KeyMask(22) == 0x40_0000 && KeyMask(26) == 0x400_0000
  {
  }

  // ---- who receives what ----

  /** The key states handed to the plugin in front, and to a remote handler. */
  function PluginStates(effects: seq<Effect>): seq<Keys> {
    if |effects| == 0 then []
    else PluginStates(effects[..|effects| - 1])
         + if effects[|effects| - 1].ToPlugin? then [effects[|effects| - 1].keys] else []
  }

  function RemoteStates(effects: seq<Effect>): seq<Keys> {
    if |effects| == 0 then []
    else RemoteStates(effects[..|effects| - 1])
         + if effects[|effects| - 1].ToRemote? then [effects[|effects| - 1].keys] else []
  }

  lemma ShortStates(e: Effect, f: Effect)
    ensures PluginStates([]) == RemoteStates([]) == OsStates([]) == []
    ensures PluginStates([e]) == if e.ToPlugin? then [e.keys] else []
    ensures RemoteStates([e]) == if e.ToRemote? then [e.keys] else []
    ensures OsStates([e]) == if e.ToOs? then [e.keys] else []
    ensures PluginStates([e, f]) == PluginStates([e]) + PluginStates([f])
    ensures RemoteStates([e, f]) == RemoteStates([e]) + RemoteStates([f])
    ensures OsStates([e, f]) == OsStates([e]) + OsStates([f])
  {
    assert [e][..0] == [] && [f][..0] == [] && [e, f][..1] == [e];
  }

  /** What the i-th report adds to the effects of a run. */
  function NewEffects(cycleKey: Keys, reports: seq<Report>, i: nat): seq<Effect>
    requires i < |reports|
  {
    EffectsGrow(cycleKey, reports, i);
    Effects(cycleKey, reports, i + 1)[|Effects(cycleKey, reports, i)|..]
  }

  lemma EffectsGrow(cycleKey: Keys, reports: seq<Report>, i: nat)
    requires i < |reports|
    ensures Effects(cycleKey, reports, i) <= Effects(cycleKey, reports, i + 1)
  {
    hide Response;
  }

  /** keys is released plus the keys of the cycle mask. */
  ghost predicate WithCycle(keys: Keys, released: Keys, cycleKey: Keys) {
    forall b: nat :: b < 32 ==> (KeyDown(keys, b) <==> KeyDown(released, b) || KeyDown(cycleKey, b))
  }

  /** keys is released without the keys of the cycle mask. */
  ghost predicate WithoutCycle(keys: Keys, released: Keys, cycleKey: Keys) {
    forall b: nat :: b < 32 ==> (KeyDown(keys, b) <==> KeyDown(released, b) && !KeyDown(cycleKey, b))
  }

  /** A mask of one bit picks it out whole or not at all. */
  lemma OneBit(keys: Keys, mask: Keys)
    requires mask & (mask - 1) == 0
    ensures Common(keys, mask) == 0 || Common(keys, mask) == mask
  {
  }

  lemma MaskOfKey(b: nat)
    requires b < 32
    ensures KeyMask(b) != 0 && KeyMask(b) & (KeyMask(b) - 1) == 0
  {
    if b < 16 {
      assert b == 0 || b == 1 || b == 2 || b == 3 || b == 4 || b == 5 || b == 6 || b == 7
        || b == 8 || b == 9 || b == 10 || b == 11 || b == 12 || b == 13 || b == 14 || b == 15;
    } else {
      assert b == 16 || b == 17 || b == 18 || b == 19 || b == 20 || b == 21 || b == 22 || b == 23
        || b == 24 || b == 25 || b == 26 || b == 27 || b == 28 || b == 29 || b == 30 || b == 31;
    }
  }

  lemma MaskedOr(a: Keys, c: Keys, mask: Keys)
    ensures Common(With(a, c), mask) == With(Common(a, mask), Common(c, mask))
  {
  }

  lemma MaskedNot(a: Keys, c: Keys, mask: Keys)
    ensures Common(Without(a, c), mask) == Without(Common(a, mask), Common(c, mask))
  {
  }

  lemma MaskedAnd(a: Keys, c: Keys, mask: Keys)
    ensures Common(Common(a, c), mask) == Common(Common(a, mask), Common(c, mask))
  {
  }

  lemma MaskTable(mask: Keys)
    ensures With(0, 0) == 0 && With(0, mask) == mask && With(mask, 0) == mask && With(mask, mask) == mask
    ensures Without(0, 0) == 0 && Without(0, mask) == 0 && Without(mask, 0) == mask && Without(mask, mask) == 0
    ensures Common(0, 0) == 0 && Common(0, mask) == 0 && Common(mask, 0) == 0 && Common(mask, mask) == mask
  {
  }

  lemma BitOfBoth(a: Keys, c: Keys, b: nat)
    requires b < 32
    ensures KeyDown(With(a, c), b) <==> KeyDown(a, b) || KeyDown(c, b)
    ensures KeyDown(Without(a, c), b) <==> KeyDown(a, b) && !KeyDown(c, b)
    ensures KeyDown(Common(a, c), b) <==> KeyDown(a, b) && KeyDown(c, b)
  {
    hide KeyMask, With, Without, Common;
    MaskOfKey(b);
    OneBit(a, KeyMask(b));
    OneBit(c, KeyMask(b));
    MaskedOr(a, c, KeyMask(b));
    MaskedNot(a, c, KeyMask(b));
    MaskedAnd(a, c, KeyMask(b));
    MaskTable(KeyMask(b));
  }

  lemma HandedPair(keys: Keys, cycleKey: Keys)
    ensures WithCycle(With(keys, cycleKey), keys, cycleKey) && WithoutCycle(Without(keys, cycleKey), keys, cycleKey)
  {
    hide KeyDown, With, Without;
    forall b: nat | b < 32
      ensures KeyDown(With(keys, cycleKey), b) <==> KeyDown(keys, b) || KeyDown(cycleKey, b)
      ensures KeyDown(Without(keys, cycleKey), b) <==> KeyDown(keys, b) && !KeyDown(cycleKey, b)
    {
      BitOfBoth(keys, cycleKey, b);
    }
  }

  /** The i-th report is an ordinary one: the cycle key is up in it and was up before. */
  predicate Ordinary(cycleKey: Keys, reports: seq<Report>, i: nat)
    requires i < |reports|
  {
    !Touches(reports[i].keys, cycleKey) && !Touches(Before(reports, i).keys, cycleKey)
  }

  /** The i-th report ends a long hold, as the gate counts it. */
  predicate LongRelease(cycleKey: Keys, reports: seq<Report>, i: nat)
    requires i < |reports|
  {
    Releases(cycleKey, reports, i) && (reports[i].time - Before(reports, i).time) % 0x1_0000_0000 >= 500
  }

  /** The daemon has survived exactly when no long hold has ended with no plugin in front. */
  lemma {:induction false} AliveExactly(cycleKey: Keys, reports: seq<Report>, n: nat)
    requires n <= |reports|
    ensures Alive(cycleKey, reports, n)
       <==> forall i :: 0 <= i < n ==> !(LongRelease(cycleKey, reports, i) && !reports[i].listens)
  {
    hide Touches;
    if n > 0 {
      AliveExactly(cycleKey, reports, n - 1);
    }
  }

  /** At every point of any run while the daemon is alive: an ordinary report with a plugin in front hands
      it exactly its keys, and then a remote handler if there is one, and the OS handler if there is
      one and no remote; a long release hands the plugin the keys with the cycle key and then without
      it; and nobody receives anything else. */
  lemma WhoReceivesWhat(cycleKey: Keys, reports: seq<Report>, i: nat)
    requires i < |reports| && Alive(cycleKey, reports, i)
    ensures var now, e := reports[i], NewEffects(cycleKey, reports, i);
            var plugin, remote, os := PluginStates(e), RemoteStates(e), OsStates(e);
            if Ordinary(cycleKey, reports, i) && now.listens then
              && |e| > 0 && e[0] == ToPlugin(now.keys) && plugin == [now.keys]
              && remote == (if now.remote then [now.keys] else [])
              && os == (if now.os && !now.remote then [now.keys] else [])
            else if LongRelease(cycleKey, reports, i) && now.listens then
              && |plugin| == 2 && WithCycle(plugin[0], now.keys, cycleKey)
              && WithoutCycle(plugin[1], now.keys, cycleKey)
              && remote == [] && os == []
            else plugin == [] && remote == [] && os == []
  {
    hide Touches, PluginStates, RemoteStates, OsStates, WithCycle, WithoutCycle, Response, Alive;
    ReceivedFrom(cycleKey, Before(reports, i), reports[i]);
    assert NewEffects(cycleKey, reports, i) == Response(cycleKey, Before(reports, i), reports[i]);
  }

  lemma ReceivedFrom(cycleKey: Keys, before: Report, now: Report)
    ensures var e := Response(cycleKey, before, now);
            var plugin, remote, os := PluginStates(e), RemoteStates(e), OsStates(e);
            if !Touches(now.keys, cycleKey) && !Touches(before.keys, cycleKey) && now.listens then
              && |e| > 0 && e[0] == ToPlugin(now.keys) && plugin == [now.keys]
              && remote == (if now.remote then [now.keys] else [])
              && os == (if now.os && !now.remote then [now.keys] else [])
            else if !Touches(now.keys, cycleKey) && Touches(before.keys, cycleKey)
                    && Elapsed(before.time, now.time) >= 500 && now.listens then
              && |plugin| == 2 && WithCycle(plugin[0], now.keys, cycleKey)
              && WithoutCycle(plugin[1], now.keys, cycleKey)
              && remote == [] && os == []
            else plugin == [] && remote == [] && os == []
  {
    hide Touches, Elapsed, With, Without, PluginStates, RemoteStates, OsStates, WithCycle, WithoutCycle;
    var e := Response(cycleKey, before, now);
    HandedPair(now.keys, cycleKey);
    ShortStates(NullPlugin, NullPlugin);
    ShortStates(CycleScreens, CycleScreens);
    ShortStates(ToPlugin(now.keys), ToRemote(now.keys));
    ShortStates(ToPlugin(now.keys), ToOs(now.keys));
    ShortStates(ToRemote(now.keys), ToOs(now.keys));
    ShortStates(ToOs(now.keys), ToOs(now.keys));
    ShortStates(ToPlugin(With(now.keys, cycleKey)), ToPlugin(Without(now.keys, cycleKey)));
    ShortStates(ToPlugin(Without(now.keys, cycleKey)), NullPlugin);
  }

  /** Touching the mask is having one of its keys down. */
  lemma TouchesIs(keys: Keys, cycleKey: Keys)
    ensures Touches(keys, cycleKey) <==> exists b: nat :: b < 32 && KeyDown(keys, b) && KeyDown(cycleKey, b)
  {
    hide KeyDown;
    var common := Common(keys, cycleKey);
    assert Touches(keys, cycleKey) <==> common != 0;
    forall b: nat | b < 32 ensures KeyDown(common, b) <==> KeyDown(keys, b) && KeyDown(cycleKey, b) {
      BitOfBoth(keys, cycleKey, b);
    }
    if forall b: nat :: b < 32 ==> !KeyDown(common, b) {
      NoKeys(common);
    }
    if common == 0 {
      forall b: nat | b < 32 ensures !KeyDown(common, b) {
        NoKeyDown(b);
      }
    }
  }

  lemma NoKeys(keys: Keys)
    requires forall b: nat :: b < 32 ==> !KeyDown(keys, b)
    ensures keys == 0
  {
    assert !KeyDown(keys, 0) && !KeyDown(keys, 1) && !KeyDown(keys, 2) && !KeyDown(keys, 3);
    assert !KeyDown(keys, 4) && !KeyDown(keys, 5) && !KeyDown(keys, 6) && !KeyDown(keys, 7);
    assert !KeyDown(keys, 8) && !KeyDown(keys, 9) && !KeyDown(keys, 10) && !KeyDown(keys, 11);
    assert !KeyDown(keys, 12) && !KeyDown(keys, 13) && !KeyDown(keys, 14) && !KeyDown(keys, 15);
    assert !KeyDown(keys, 16) && !KeyDown(keys, 17) && !KeyDown(keys, 18) && !KeyDown(keys, 19);
    assert !KeyDown(keys, 20) && !KeyDown(keys, 21) && !KeyDown(keys, 22) && !KeyDown(keys, 23);
    assert !KeyDown(keys, 24) && !KeyDown(keys, 25) && !KeyDown(keys, 26) && !KeyDown(keys, 27);
    assert !KeyDown(keys, 28) && !KeyDown(keys, 29) && !KeyDown(keys, 30) && !KeyDown(keys, 31);
  }

  /** The codes the kernel sees: 167 to 184 for G1 to G18, 185 to 188 for the M keys, and 189 to 193
      for L1 to L5 when they are mapped - and no code when they are not, nor for any other key. */
  lemma CodesOfKeys(states: seq<Keys>, mapLkeys: bool, code: nat)
    requires |states| > 0
    ensures code in Held({}, Codes(states, mapLkeys))
       <==> 167 <= code <= (if mapLkeys then 193 else 188) && KeyDown(states[|states| - 1], code - 167)
  {
    hide Codes, Held, KeyDown;
    CodesReplayed(states, mapLkeys);
    if code >= 167 {
      assert code == GKEY_OFFSET + (code - 167);
    }
  }
}
