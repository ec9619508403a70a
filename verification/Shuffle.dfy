// The web player's shuffle: the in-place Fisher-Yates pass, and walking through the
// shuffled order forwards and backwards.

module Shuffle {
  import Naturals = Bits
  import opened Common

  function Identity(n: nat): (o: seq<int>)
    ensures |o| == n
  {
    seq(n, i => i)
  }

  function Swapped(o: seq<int>, i: nat, j: nat): (r: seq<int>)
    requires i < |o| && j < |o|
    ensures |r| == |o|
  {
    o[i := o[j]][j := o[i]]
  }

  /** draws[i] is the random index drawn at position i. */
  predicate Draws(draws: seq<nat>, n: nat) {
    |draws| == n && forall i | 0 <= i < n :: draws[i] <= i
  }

  /** The pass from position i down to 1. */
  function Dealt(o: seq<int>, i: nat, draws: seq<nat>): (r: seq<int>)
    requires Draws(draws, |o|) && (i < |o| || i == 0)
    ensures |r| == |o|
    decreases i
  {
    if i == 0 then o else Dealt(Swapped(o, i, draws[i]), i - 1, draws)
  }

  lemma IsIdentity(o: seq<int>, n: nat)
    requires |o| == n && forall i | 0 <= i < n :: o[i] == i
    ensures o == Identity(n)
  {}

  lemma IsSwapped(was: seq<int>, now: seq<int>, i: nat, j: nat)
    requires i < |was| == |now| && j < |was| && now[i] == was[j] && now[j] == was[i]
    requires forall k | 0 <= k < |was| && k != i && k != j :: now[k] == was[k]
    ensures now == Swapped(was, i, j)
  {}

  /** _pBuildShuffle */
  method BuildShuffle(n: nat, draws: seq<nat>) returns (order: array<int>)
    requires Draws(draws, n)
    ensures order[..] == Dealt(Identity(n), if n == 0 then 0 else n - 1, draws) && fresh(order)
  {
    hide Swapped, Identity;
    order := new int[n](i => i);
    IsIdentity(order[..], n);
    if n == 0 { return; }
    var i := n - 1;
    while i > 0
      invariant 0 <= i < n
      invariant Dealt(Identity(n), n - 1, draws) == Dealt(order[..], i, draws)
    {
      var j := draws[i];
      ghost var was := order[..];
      order[i], order[j] := order[j], order[i];
      IsSwapped(was, order[..], i, j);
      i := i - 1;
    }
  }

  // ---- Every order, each in one way --------------------------------------------------------

  predicate Distinct(o: seq<int>) {
    forall i, j | 0 <= i < j < |o| :: o[i] != o[j]
  }

  lemma SwapKeeps(o: seq<int>, i: nat, j: nat)
    requires i < |o| && j < |o|
    ensures multiset(Swapped(o, i, j)) == multiset(o) && (Distinct(o) ==> Distinct(Swapped(o, i, j)))
    ensures Swapped(o, i, j)[i] == o[j]
  {}

  lemma SameIndex(o: seq<int>, a: nat, b: nat)
    requires Distinct(o) && a < |o| && b < |o|
    ensures o[a] == o[b] ==> a == b
  {}

  lemma {:induction false} DealtIsPermutation(o: seq<int>, i: nat, draws: seq<nat>)
    requires Draws(draws, |o|) && (i < |o| || i == 0)
    ensures multiset(Dealt(o, i, draws)) == multiset(o)
    ensures forall m | i < m < |o| :: Dealt(o, i, draws)[m] == o[m]
    decreases i
  {
    if i > 0 {
      SwapKeeps(o, i, draws[i]);
      DealtIsPermutation(Swapped(o, i, draws[i]), i - 1, draws);
    }
  }

  /** The first draw picks what ends up at position i. */
  lemma FirstDraw(o: seq<int>, i: nat, draws: seq<nat>)
    requires Draws(draws, |o|) && 0 < i < |o|
    ensures Dealt(o, i, draws)[i] == o[draws[i]]
  {
    hide Swapped;
    DealtIsPermutation(Swapped(o, i, draws[i]), i - 1, draws);
    SwapKeeps(o, i, draws[i]);
  }

  /** Different draws deal different orders ... */
  lemma {:induction false} DrawsAreUnique(o: seq<int>, i: nat, a: seq<nat>, b: seq<nat>)
    requires Draws(a, |o|) && Draws(b, |o|) && (i < |o| || i == 0) && Distinct(o)
    requires Dealt(o, i, a) == Dealt(o, i, b)
    ensures forall m | 1 <= m <= i :: a[m] == b[m]
    decreases i
  {
    if i > 0 {
      hide Swapped, Distinct;
      FirstDraw(o, i, a);
      FirstDraw(o, i, b);
      SameIndex(o, a[i], b[i]);
      SwapKeeps(o, i, a[i]);
      DrawsAreUnique(Swapped(o, i, a[i]), i - 1, a, b);
    }
  }

  /** ... and every order is dealt by some draws: a uniform draw at each position makes
      every order equally likely. */
  lemma {:induction false} EveryOrderIsDealt(o: seq<int>, i: nat, target: seq<int>) returns (draws: seq<nat>)
    requires (i < |o| || i == 0) && Distinct(o) && multiset(o) == multiset(target)
    requires forall m | i < m < |o| :: |target| == |o| && target[m] == o[m]
    ensures Draws(draws, |o|) && Dealt(o, i, draws) == target
    decreases i
  {
    hide Swapped, Distinct;
    SameLength(o, target);
    if i == 0 {
      draws := seq(|o|, _ => 0);
      if |o| > 0 { LastOneFits(o, target); }
    } else {
      var j := Position(o, i, target);
      SwapKeeps(o, i, j);
      SwapStays(o, i, j);
      var later := EveryOrderIsDealt(Swapped(o, i, j), i - 1, target);
      draws := later[i := j];
      DrawsAboveDoNotMatter(Swapped(o, i, j), i - 1, later, draws);
    }
  }

  lemma SwapStays(o: seq<int>, i: nat, j: nat)
    requires j <= i < |o|
    ensures forall m | i < m < |o| :: Swapped(o, i, j)[m] == o[m]
  {}

  lemma SameLength(o: seq<int>, target: seq<int>)
    requires multiset(o) == multiset(target)
    ensures |o| == |target|
  {
    assert |multiset(o)| == |o| && |multiset(target)| == |target|;
  }

  lemma LastOneFits(o: seq<int>, target: seq<int>)
    requires multiset(o) == multiset(target) && |o| == |target| > 0
    requires forall m | 0 < m < |o| :: target[m] == o[m]
    ensures o == target
  {
    assert o == [o[0]] + o[1..] && target == [target[0]] + target[1..];
    assert o[1..] == target[1..];
    assert multiset(o) == multiset{o[0]} + multiset(o[1..]);
    assert multiset(target) == multiset{target[0]} + multiset(o[1..]);
    assert multiset(o)[o[0]] == multiset(target)[o[0]];
  }

  lemma Position(o: seq<int>, i: nat, target: seq<int>) returns (j: nat)
    requires i < |o| == |target| && Distinct(o) && multiset(o) == multiset(target)
    requires forall m | i < m < |o| :: target[m] == o[m]
    ensures j <= i && o[j] == target[i]
  {
    assert target[i] in multiset(target);
    assert target[i] in o;
    j :| 0 <= j < |o| && o[j] == target[i];
    if j > i {
      TwiceInTarget(o, target, i, j);
      assert false;
    }
  }

  lemma TwiceInTarget(o: seq<int>, target: seq<int>, i: nat, j: nat)
    requires i < j < |o| == |target| && Distinct(o) && target[i] == target[j]
    ensures multiset(o) != multiset(target)
  {
    var x := target[i];
    assert target == target[..i] + [x] + target[i + 1..j] + [x] + target[j + 1..];
    assert multiset(target)[x] >= 2;
    DistinctOnce(o, x);
  }

  lemma {:induction false} DistinctOnce(o: seq<int>, x: int)
    requires Distinct(o)
    ensures multiset(o)[x] <= 1
    decreases |o|
  {
    if o != [] {
      var n := |o| - 1;
      assert o == o[..n] + [o[n]];
      DistinctOnce(o[..n], x);
      if x == o[n] { assert x !in o[..n]; }
    }
  }

  lemma {:induction false} DrawsAboveDoNotMatter(o: seq<int>, i: nat, a: seq<nat>, b: seq<nat>)
    requires Draws(a, |o|) && Draws(b, |o|) && (i < |o| || i == 0)
    requires forall m | 0 <= m <= i && m < |o| :: a[m] == b[m]
    ensures Dealt(o, i, a) == Dealt(o, i, b)
    decreases i
  {
    if i > 0 { DrawsAboveDoNotMatter(Swapped(o, i, a[i]), i - 1, a, b); }
  }

  // ---- Walking through the order -----------------------------------------------------------------

  /** Array.prototype.indexOf */
  function IndexOf(o: seq<int>, x: int): (p: int)
    ensures if x in o then 0 <= p < |o| && o[p] == x else p == -1
  {
    if o == [] then -1
    else if o[0] == x then 0
    else
      var p := IndexOf(o[1..], x);
      if p == -1 then -1 else p + 1
  }

  /** o holds the numbers of all n songs, each once. */
  predicate IsOrder(o: seq<int>, n: nat) {
    && |o| == n && Distinct(o)
    && (forall i | 0 <= i < n :: 0 <= o[i] < n)
    && (forall x: int | 0 <= x < n :: x in o)
  }

  /** The shuffled order begins with an order of the songs there are. The player does not
      see to this: it rebuilds the order when shuffling is switched on, not when the
      playlist changes. */
  predicate InStep(o: seq<int>, n: nat) { n <= |o| && IsOrder(o[..n], n) }

  function Up(at: int, n: nat): int
    requires n > 0
  {
    (at + 1) % n
  }

  function Down(at: int, n: nat): int
    requires n > 0
  {
    (at - 1 + n) % n
  }

  /** playerState, as far as it matters here. The order is whatever the last shuffle left.
      idx is None when it is not a number of any song, nor -1 for no song. */
  datatype Player = Player(count: nat, shuffle: bool, order: seq<int>, idx: Option<int>) {
    predicate Valid() {
      && (idx.Some? ==> -1 <= idx.value < count)
      && forall i | 0 <= i < |order| :: order[i] >= 0
    }

    predicate Playing() { idx.Some? && 0 <= idx.value < count }

    /** The element of the order, undefined past its end. */
    function Pick(at: int): Option<int> {
      if 0 <= at < |order| then Some(order[at]) else None
    }

    function Position(): int { if idx.None? then -1 else IndexOf(order, idx.value) }

    /** _pNext; None is undefined, or not a number. */
    function Next(): Option<int> {
      if count == 0 then Some(-1)
      else if shuffle then Pick(Up(Position(), count))
      else if idx.None? then None
      else Some(Up(idx.value, count))
    }

    /** _pPrev */
    function Prev(): Option<int> {
      if count == 0 then Some(-1)
      else if shuffle then Pick(Down(Position(), count))
      else if idx.None? then None
      else Some(Down(idx.value, count))
    }

    /** _pPlay: a number outside the list is ignored; undefined passes both comparisons, and
        the song it stands for has no url. */
    function Play(pick: Option<int>): (p: Player)
      requires Valid()
      ensures p.Valid()
    {
      match pick
      case None => this.(idx := None)
      case Some(i) => if i < 0 || i >= count then this else this.(idx := Some(i))
    }
  }

  /** After k presses of next. */
  function After(p: Player, k: nat): (r: Player)
    requires p.Valid()
    ensures r.Valid() && r == p.(idx := r.idx)
    decreases k
  {
    if k == 0 then p
    else
      var q := After(p, k - 1);
      q.Play(q.Next())
  }

  /** One of as many presses of next as there are songs plays this one. */
  ghost predicate NextPlays(p: Player, song: int)
    requires p.Valid()
  {
    exists k: nat | k < p.count :: After(p, k).Next() == Some(song)
  }

  ghost predicate NextPlaysAll(p: Player)
    requires p.Valid()
  {
    forall song: int | 0 <= song < p.count :: NextPlays(p, song)
  }

  /** Pressing next plays the whole list if and only if a shuffling player's order is in step
      with the list, and one that does not shuffle has its place in the list (at a song, or at
      -1 for none) and has not lost it to an undefined song. */
  lemma NextPlaysAllIff(p: Player)
    requires p.Valid()
    ensures
      NextPlaysAll(p) <==>
      && (p.shuffle ==> InStep(p.order, p.count))
      && (p.shuffle || p.idx.Some? || p.count == 0)
  {
    if p.count == 0 {
      EmptyIsInStep(p.order);
    } else if p.shuffle && !InStep(p.order, p.count) {
      hide *;
      if NextPlaysAll(p) { PlayedFromFront(p); }
    } else if !p.shuffle && p.idx.None? {
      hide After, InStep;
      StaysLost(p);
    } else {
      WalksPlaysAll(p);
    }
  }

  lemma EmptyIsInStep(o: seq<int>)
    ensures InStep(o, 0)
  {}

  /** Without a place in the list, next finds none. */
  lemma StaysLost(p: Player)
    requires p.Valid() && p.count > 0 && !p.shuffle && p.idx.None?
    ensures !NextPlaysAll(p)
  {
    hide After;
    forall k: nat ensures After(p, k).Next() == None { LostAfter(p, k); }
    assert !NextPlays(p, 0);
  }

  lemma {:induction false} LostAfter(p: Player, k: nat)
    requires p.Valid() && p.count > 0 && !p.shuffle && p.idx.None?
    ensures After(p, k) == p && p.Next() == None
    decreases k
  {
    if k > 0 { LostAfter(p, k - 1); }
  }

  lemma WalksPlaysAll(p: Player)
    requires Walks(p)
    ensures NextPlaysAll(p)
  {
    forall song: int | 0 <= song < p.count ensures NextPlays(p, song) {
      hide *;
      ReachesSong(p, song);
    }
  }

  lemma PlayedFromFront(p: Player)
    requires p.Valid() && p.shuffle && NextPlaysAll(p)
    ensures InStep(p.order, p.count)
  {
    hide InStep, After, Front;
    forall song: int | 0 <= song < p.count ensures song in Front(p.order, p.count) {
      assert NextPlays(p, song);
      var k: nat :| k < p.count && After(p, k).Next() == Some(song);
      PickedFromFront(After(p, k), Up(After(p, k).Position(), p.count), song);
    }
    FrontIsOrder(p.order, p.count);
  }

  /** At most the first n entries. */
  function Front(o: seq<int>, n: nat): (f: seq<int>)
    ensures |f| <= n
  {
    if n <= |o| then o[..n] else o
  }

  lemma PickedFromFront(p: Player, at: int, song: int)
    requires p.count > 0 && at < p.count && p.Pick(at) == Some(song)
    ensures song in Front(p.order, p.count)
  {
    assert song == Front(p.order, p.count)[at];
  }

  /** n entries that hold n songs hold each once, and nothing else. */
  lemma FrontIsOrder(o: seq<int>, n: nat)
    requires forall song: int | 0 <= song < n :: song in Front(o, n)
    ensures InStep(o, n)
  {
    Pigeonhole(Front(o, n), n);
  }

  lemma {:induction false} Pigeonhole(o: seq<int>, n: nat)
    requires |o| <= n && forall x: int | 0 <= x < n :: x in o
    ensures IsOrder(o, n)
    decreases n
  {
    if n > 0 {
      assert n - 1 in o;
      var i :| 0 <= i < |o| && o[i] == n - 1;
      var rest := o[..i] + o[i + 1..];
      forall x: int | 0 <= x < n - 1 ensures x in rest {
        assert x in o;
        var j :| 0 <= j < |o| && o[j] == x;
        assert rest[if j < i then j else j - 1] == x;
      }
      Pigeonhole(rest, n - 1);
      forall j | 0 <= j < n && j != i ensures 0 <= o[j] < n - 1 {
        assert o[j] == rest[if j < i then j else j - 1];
      }
      forall j, k | 0 <= j < k < n ensures o[j] != o[k] {
        if j != i && k != i {
          assert o[j] == rest[if j < i then j else j - 1] && o[k] == rest[if k < i then k else k - 1];
        }
      }
    }
  }

  /** One place up or down, around the end; indexOf may also have answered -1. */
  lemma Around(at: int, n: nat)
    requires n > 0 && -1 <= at < n
    ensures Up(at, n) == if at + 1 == n then 0 else at + 1
    ensures 0 <= Down(at, n) < n
    ensures at >= 0 ==> Down(at, n) == if at == 0 then n - 1 else at - 1
  {
    Naturals.DivModUnique(at + 1, n, if at + 1 == n then 1 else 0, if at + 1 == n then 0 else at + 1);
    if at >= 1 {
      Naturals.DivModUnique(at - 1 + n, n, 1, at - 1);
    } else if at == 0 {
      Naturals.DivModUnique(at - 1 + n, n, 0, at - 1 + n);
    }
  }

  /** Where a song stands in playing order. */
  function PlaceOf(p: Player, song: int): int { if p.shuffle then IndexOf(p.order, song) else song }

  /** The place next and previous set out from: -1 for no song, or when a shuffling player's
      song is undefined. */
  function Place(p: Player): int { if p.idx.None? then -1 else PlaceOf(p, p.idx.value) }

  predicate Walks(p: Player) {
    && p.Valid() && p.count > 0
    && if p.shuffle then InStep(p.order, p.count) else p.idx.Some?
  }

  lemma {:induction false} NoneBefore(o: seq<int>, i: nat)
    requires i < |o|
    ensures IndexOf(o, o[i]) <= i
  {
    if i > 0 && o[0] != o[i] { NoneBefore(o[1..], i - 1); }
  }

  lemma PlaceInFront(p: Player, song: int)
    requires Walks(p) && -1 <= song < p.count
    ensures -1 <= PlaceOf(p, song) < p.count && (song >= 0 <==> PlaceOf(p, song) >= 0)
    ensures p.shuffle && song >= 0 ==> p.order[PlaceOf(p, song)] == song
  {
    if p.shuffle && song >= 0 {
      assert song in p.order[..p.count];
      var i :| 0 <= i < p.count && p.order[..p.count][i] == song;
      NoneBefore(p.order, i);
    }
  }

  lemma SongAt(p: Player, at: int)
    requires Walks(p) && p.shuffle && 0 <= at < p.count
    ensures 0 <= p.order[at] < p.count && PlaceOf(p, p.order[at]) == at
  {
    var front := p.order[..p.count];
    assert p.order[at] == front[at];
    PlaceInFront(p, front[at]);
    var first := PlaceOf(p, front[at]);
    assert front[first] == p.order[first] == front[at];
  }

  lemma SamePlace(p: Player, a: int, b: int)
    requires Walks(p) && -1 <= a < p.count && -1 <= b < p.count && PlaceOf(p, a) == PlaceOf(p, b)
    ensures a == b
  {
    PlaceInFront(p, a);
    PlaceInFront(p, b);
  }

  lemma PlaceInRange(p: Player)
    requires Walks(p)
    ensures -1 <= Place(p) < p.count && (p.Playing() <==> Place(p) >= 0)
  {
    hide PlaceOf, InStep;
    if p.idx.Some? { PlaceInFront(p, p.idx.value); }
  }

  /** The song at a place. */
  function SongOn(p: Player, at: int): (song: int)
    requires Walks(p) && 0 <= at < p.count
  {
    if p.shuffle then p.order[at] else at
  }

  lemma SongOnPlace(p: Player, at: int)
    requires Walks(p) && 0 <= at < p.count
    ensures 0 <= SongOn(p, at) < p.count && PlaceOf(p, SongOn(p, at)) == at
  {
    if p.shuffle { SongAt(p, at); }
  }

  lemma NextIsUp(p: Player)
    requires Walks(p)
    ensures 0 <= Up(Place(p), p.count) < p.count && p.Next() == Some(SongOn(p, Up(Place(p), p.count)))
  {
    PlaceInRange(p);
    Around(Place(p), p.count);
    hide Up;
  }

  lemma PrevIsDown(p: Player)
    requires Walks(p)
    ensures 0 <= Down(Place(p), p.count) < p.count && p.Prev() == Some(SongOn(p, Down(Place(p), p.count)))
  {
    PlaceInRange(p);
    Around(Place(p), p.count);
    hide Down;
  }

  /** Next goes one place up, previous one place down. */
  lemma Neighbours(p: Player)
    requires Walks(p)
    ensures
      var next := p.Next();
      && next.Some? && 0 <= next.value < p.count
      && PlaceOf(p, next.value) == if Place(p) + 1 == p.count then 0 else Place(p) + 1
    ensures
      var prev := p.Prev();
      p.Playing() ==>
        && prev.Some? && 0 <= prev.value < p.count
        && PlaceOf(p, prev.value) == if Place(p) == 0 then p.count - 1 else Place(p) - 1
  {
    hide *;
    NextIsUp(p);
    PrevIsDown(p);
    PlaceInRange(p);
    Around(Place(p), p.count);
    SongOnPlace(p, Up(Place(p), p.count));
    SongOnPlace(p, Down(Place(p), p.count));
  }

  lemma PlaceStays(p: Player, q: Player, song: int)
    requires q == p.(idx := q.idx)
    ensures PlaceOf(q, song) == PlaceOf(p, song)
  {}

  /** Playing a song of the list moves the player to its place. */
  lemma PlayMoves(p: Player, song: int)
    requires Walks(p) && 0 <= song < p.count
    ensures
      var q := p.Play(Some(song));
      Walks(q) && q.Playing() && q == p.(idx := Some(song)) && Place(q) == PlaceOf(p, song)
  {
    hide InStep, IndexOf;
  }

  lemma {:induction false} PlaceAfter(p: Player, k: nat)
    requires Walks(p) && k <= p.count
    ensures Walks(After(p, k)) && (k > 0 ==> After(p, k).Playing())
    ensures Place(After(p, k)) == if Place(p) + k < p.count then Place(p) + k else Place(p) + k - p.count
    decreases k
  {
    hide Place, PlaceOf, InStep, Player.Next, Player.Play, Player.Playing;
    PlaceInRange(p);
    if k > 0 {
      PlaceAfter(p, k - 1);
      var q := After(p, k - 1);
      Neighbours(q);
      PlayMoves(q, q.Next().value);
    }
  }

  lemma ReachesSong(p: Player, song: int)
    requires Walks(p) && 0 <= song < p.count
    ensures NextPlays(p, song)
  {
    hide Place, PlaceOf, InStep, Player.Next, Player.Playing, After;
    var at, goal := Place(p), PlaceOf(p, song);
    PlaceInRange(p);
    PlaceInFront(p, song);
    var k: nat := if goal > at then goal - at - 1 else goal - at - 1 + p.count;
    PlaceAfter(p, k);
    var q := After(p, k);
    Neighbours(q);
    PlaceStays(p, q, q.Next().value);
    SamePlace(p, q.Next().value, song);
    assert q.Next() == Some(song);
  }

  /** After the last song the list starts over. */
  lemma NextStartsOver(p: Player)
    requires Walks(p) && p.Playing()
    ensures After(p, p.count) == p
  {
    hide PlaceOf, Player.Next, Player.Prev, InStep, After;
    PlaceInRange(p);
    PlaceAfter(p, p.count);
    PlaceStays(p, After(p, p.count), After(p, p.count).idx.value);
    SamePlace(p, After(p, p.count).idx.value, p.idx.value);
  }

  /** From this song, previous takes back a press of next. */
  predicate BackUndoesNext(p: Player, song: int)
    requires p.Valid() && 0 <= song < p.count
  {
    var q := p.(idx := Some(song));
    q.Play(q.Next()).Prev() == Some(song)
  }

  predicate NextUndoesBack(p: Player, song: int)
    requires p.Valid() && 0 <= song < p.count
  {
    var q := p.(idx := Some(song));
    q.Play(q.Prev()).Next() == Some(song)
  }

  /** Previous undoes next at every song, and next undoes previous at every song, each if
      and only if the player does not shuffle or its order is in step. */
  lemma BackUndoesNextIff(p: Player)
    requires p.Valid()
    ensures (forall song | 0 <= song < p.count :: BackUndoesNext(p, song)) <==> (p.shuffle ==> InStep(p.order, p.count))
    ensures (forall song | 0 <= song < p.count :: NextUndoesBack(p, song)) <==> (p.shuffle ==> InStep(p.order, p.count))
  {
    if p.shuffle ==> InStep(p.order, p.count) {
      hide InStep;
      forall song | 0 <= song < p.count ensures BackUndoesNext(p, song) && NextUndoesBack(p, song) {
        ThereAndBack(p.(idx := Some(song)));
      }
    } else {
      hide InStep, BackUndoesNext, NextUndoesBack;
      if forall song | 0 <= song < p.count :: BackUndoesNext(p, song) { BackPicksFromFront(p); }
      if forall song | 0 <= song < p.count :: NextUndoesBack(p, song) { NextPicksFromFront(p); }
    }
  }

  lemma BackPicksFromFront(p: Player)
    requires p.Valid() && p.shuffle && forall song | 0 <= song < p.count :: BackUndoesNext(p, song)
    ensures InStep(p.order, p.count)
  {
    hide InStep;
    forall song: int | 0 <= song < p.count ensures song in Front(p.order, p.count) {
      var q := p.(idx := Some(song));
      var r := q.Play(q.Next());
      assert BackUndoesNext(p, song);
      PickedFromFront(r, Down(r.Position(), p.count), song);
    }
    FrontIsOrder(p.order, p.count);
  }

  lemma NextPicksFromFront(p: Player)
    requires p.Valid() && p.shuffle && forall song | 0 <= song < p.count :: NextUndoesBack(p, song)
    ensures InStep(p.order, p.count)
  {
    hide InStep;
    forall song: int | 0 <= song < p.count ensures song in Front(p.order, p.count) {
      var q := p.(idx := Some(song));
      var r := q.Play(q.Prev());
      assert NextUndoesBack(p, song);
      PickedFromFront(r, Up(r.Position(), p.count), song);
    }
    FrontIsOrder(p.order, p.count);
  }

  lemma ThereAndBack(p: Player)
    requires Walks(p) && p.Playing()
    ensures p.Play(p.Next()).Prev() == p.idx && p.Play(p.Prev()).Next() == p.idx
  {
    hide *;
    Neighbours(p);
    NextThenPrev(p, p.Next().value);
    PrevThenNext(p, p.Prev().value);
  }

  lemma NextThenPrev(p: Player, song: int)
    requires Walks(p) && p.Playing() && 0 <= song < p.count
    requires PlaceOf(p, song) == if Place(p) + 1 == p.count then 0 else Place(p) + 1
    ensures p.Play(Some(song)).Prev() == p.idx
  {
    hide PlaceOf, Player.Next, Player.Prev, Player.Play, InStep;
    PlaceInRange(p);
    PlayMoves(p, song);
    var q := p.Play(Some(song));
    Neighbours(q);
    PlaceStays(p, q, q.Prev().value);
    SamePlace(p, q.Prev().value, p.idx.value);
  }

  lemma PrevThenNext(p: Player, song: int)
    requires Walks(p) && p.Playing() && 0 <= song < p.count
    requires PlaceOf(p, song) == if Place(p) == 0 then p.count - 1 else Place(p) - 1
    ensures p.Play(Some(song)).Next() == p.idx
  {
    hide PlaceOf, Player.Next, Player.Prev, Player.Play, InStep;
    PlaceInRange(p);
    PlayMoves(p, song);
    var q := p.Play(Some(song));
    Neighbours(q);
    PlaceStays(p, q, q.Next().value);
    SamePlace(p, q.Next().value, p.idx.value);
  }

  /** Without songs next and previous change nothing. */
  lemma EmptyListStays(p: Player)
    requires p.Valid() && p.count == 0
    ensures p.Next() == p.Prev() == Some(-1) && p.Play(Some(-1)) == p
  {}

  /** One song shuffled, then a second one added: next finds nothing to play. */
  lemma SongAddedAfterShuffle()
    ensures
      var p := Player(2, true, [0], Some(0));
      p.Valid() && p.Next() == None && p.Play(p.Next()).idx == None && !NextPlaysAll(p)
  {
    var p := Player(2, true, [0], Some(0));
    assert IndexOf([0], 0) == 0;
    assert Up(0, 2) == 1;
    NextPlaysAllIff(p);
  }

  /** Shuffling switched off after that: the player is lost in its own list for good. */
  lemma LostAfterShuffle()
    ensures
      var p := Player(2, true, [0], Some(0));
      var q := p.Play(p.Next()).(shuffle := false);
      q == Player(2, false, [0], None) && q.Valid() && !NextPlaysAll(q)
  {
    SongAddedAfterShuffle();
    NextPlaysAllIff(Player(2, false, [0], None));
  }

  /** A freshly built shuffle is an order of all songs. */
  lemma ShuffleIsOrder(n: nat, draws: seq<nat>)
    requires Draws(draws, n)
    ensures
      var order := Dealt(Identity(n), if n == 0 then 0 else n - 1, draws);
      IsOrder(order, n) && InStep(order, n)
  {
    var i, o := if n == 0 then 0 else n - 1, Identity(n);
    var r := Dealt(o, i, draws);
    DealtIsPermutation(o, i, draws);
    assert r[..n] == r;
    hide Dealt;
    PermutedIdentity(r, n);
  }

  lemma PermutedIdentity(r: seq<int>, n: nat)
    requires multiset(r) == multiset(Identity(n))
    ensures IsOrder(r, n)
  {
    var o := Identity(n);
    SameLength(o, r);
    forall x: int | 0 <= x < n ensures x in r {
      assert o[x] == x && x in multiset(o);
      assert x in multiset(r);
    }
    Pigeonhole(r, n);
  }
}
