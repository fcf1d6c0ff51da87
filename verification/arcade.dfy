/** The arcade's top-level state record, its constructor and its per-frame
    update, which advances the selected game on every tenth frame. */
module Arcade {
  import opened Primitives

  datatype ArcadeState = ArcadeState(
    dimension: Vec2,
    games: Vec2,
    currentGame: usize,
    lastGame: usize,
    name: string,
    highScores: seq<(string, usize)>)

  /** A fresh arcade for a terminal of the given size. */
  function New(dimension: Vec2): (s: ArcadeState)
    ensures s.dimension == dimension
    ensures s.games == Vec2(0, 0)
    ensures s.currentGame == 0 && s.lastGame == 0
    ensures s.name == "Space Invaders"
    ensures s.highScores == []
  {
    ArcadeState(dimension, Vec2(0, 0), 0, 0, "Space Invaders", [])
  }

  /** Whether frame `step` selects the next game. */
  predicate Advances(step: u64) {
    step % 10 == 0
  }

  /** `current_game + 1` stays within `usize` if this frame advances. */
  predicate CanUpdate(s: ArcadeState, step: u64) {
    Advances(step) ==> s.currentGame as int < USIZE_MAX
  }

  /** One frame: on every tenth frame the current game moves on by one;
      every other field is left as it was. */
  function Update(s: ArcadeState, step: u64): (r: ArcadeState)
    requires CanUpdate(s, step)
    ensures r == s.(currentGame := r.currentGame)
    ensures s.currentGame as int <= r.currentGame as int <= s.currentGame as int + 1
    ensures r.currentGame > s.currentGame <==> step % 10 == 0
  {
    if Advances(step) then s.(currentGame := s.currentGame + 1) else s
  }

  /** How many frames of `steps` are multiples of ten. */
  function Ticks(steps: seq<u64>): nat {
    |set i | 0 <= i < |steps| && steps[i] % 10 == 0|
  }

  /** Ticks counted frame by frame, from the back. */
  lemma {:induction false} TicksSnoc(steps: seq<u64>, step: u64)
    ensures Ticks(steps + [step]) == Ticks(steps) + (if step % 10 == 0 then 1 else 0)
  {
    var t := steps + [step];
    var a := set i | 0 <= i < |steps| && steps[i] % 10 == 0;
    var b := set i | 0 <= i < |t| && t[i] % 10 == 0;
    if step % 10 == 0 {
      assert b == a + {|steps|};
    } else {
      assert b == a;
    }
  }

  lemma {:induction false} TicksPrefix(steps: seq<u64>, n: nat)
    requires n <= |steps|
    ensures Ticks(steps[..n]) <= Ticks(steps)
  {
    var a := set i | 0 <= i < n && steps[..n][i] % 10 == 0;
    var b := set i | 0 <= i < |steps| && steps[i] % 10 == 0;
    assert a <= b;
    SubsetCard(a, b);
  }

  lemma SubsetCard(a: set<int>, b: set<int>)
    requires a <= b
    ensures |a| <= |b|
  {
    assert b == a + (b - a);
  }

  /** Updating through every frame of `steps` in order; possible as long as
      `current_game` never needs to pass `usize::MAX`. */
  function Run(s: ArcadeState, steps: seq<u64>): (r: ArcadeState)
    requires s.currentGame as int + Ticks(steps) <= USIZE_MAX
    ensures r.currentGame as int == s.currentGame as int + Ticks(steps)
    ensures r == s.(currentGame := r.currentGame)
    decreases |steps|
  {
    if steps == [] then s
    else
      var init := steps[..|steps| - 1];
      var last := steps[|steps| - 1];
      assert steps == init + [last];
      TicksSnoc(init, last);
      Update(Run(s, init), last)
  }

  /** `current_game` never decreases: a longer run of frames ends on a game
      at least as far along as any shorter prefix of it. */
  lemma RunMonotone(s: ArcadeState, steps: seq<u64>, n: nat)
    requires s.currentGame as int + Ticks(steps) <= USIZE_MAX
    requires n <= |steps|
    ensures s.currentGame as int + Ticks(steps[..n]) <= USIZE_MAX
    ensures s.currentGame <= Run(s, steps[..n]).currentGame <= Run(s, steps).currentGame
  {
    TicksPrefix(steps, n);
  }

  /** From a fresh arcade, the current game after a run of frames is the
      number of those frames that were multiples of ten; nothing else moves. */
  lemma RunFromNew(dimension: Vec2, steps: seq<u64>)
    requires Ticks(steps) <= USIZE_MAX
    ensures Run(New(dimension), steps) == New(dimension).(currentGame := Ticks(steps) as usize)
  {
  }
}
