/**
 * Setting up a game of dominoes: the double-six stock, the deal of seven
 * pieces to each side, the choice of the side that starts and the first
 * piece of the snake.  The four lists the game keeps (stock, the two hands
 * and the snake) are fields of a `Table` that the operations update.
 */
module Domino {

  /** A piece `[left, right]`. */
  datatype Piece = Piece(left: int, right: int)

  datatype Side = Computer | Player

  /** The side that starts and the double it starts with. */
  datatype Start = Start(side: Side, double: Piece)

  datatype Option<T> = None | Some(value: T)

  function Other(side: Side): Side {
    if side == Computer then Player else Computer
  }

  predicate NoDuplicates(s: seq<Piece>) {
    forall a, b :: 0 <= a < b < |s| ==> s[a] != s[b]
  }

  // ---------------------------------------------------------------------
  // The double-six set, in the order the set-up loops visit it

  /** `[i, i]`, `[i, i + 1]`, ..., `[i, 6]`. */
  function PiecesFrom(i: nat): (r: seq<Piece>)
    requires i <= 6
    ensures |r| == 7 - i && forall k :: 0 <= k < |r| ==> r[k] == Piece(i, i + k)
  {
    seq(7 - i, k requires 0 <= k < 7 - i => Piece(i, i + k))
  }

  /** The pieces whose smaller half is below `i`. */
  function PiecesBelow(i: nat): (r: seq<Piece>)
    requires i <= 7
    ensures forall k :: 0 <= k < |r| ==> r[k].left < i && r[k].left <= r[k].right <= 6
  {
    if i == 0 then [] else PiecesBelow(i - 1) + PiecesFrom(i - 1)
  }

  /** One more than the highest half, the bound of the set-up loops. */
  const Bound: nat := 7

  function DoubleSix(): seq<Piece> {
    PiecesBelow(Bound)
  }

  lemma {:induction false} PiecesBelowContents(i: nat)
    requires i <= 7
    ensures forall p :: p in PiecesBelow(i) <==> 0 <= p.left < i && p.left <= p.right <= 6
    ensures NoDuplicates(PiecesBelow(i))
    ensures 2 * |PiecesBelow(i)| == 15 * i - i * i
  {
    if i > 0 {
      PiecesBelowContents(i - 1);
      var a, b := PiecesBelow(i - 1), PiecesFrom(i - 1);
      forall p: Piece ensures p in a + b <==> 0 <= p.left < i && p.left <= p.right <= 6 {
        if p.left == i - 1 && p.left <= p.right <= 6 {
          assert b[p.right - p.left] == p;
        }
      }
      forall x, y | 0 <= x < y < |a + b| ensures (a + b)[x] != (a + b)[y] {
        if x < |a| && y >= |a| {
          assert (a + b)[x] in a;
        }
      }
    }
  }

  /** The double-six set holds the 28 pieces `[i, j]` with `0 <= i <= j <= 6`,
      each once. */
  lemma DoubleSixContents()
    ensures |DoubleSix()| == 28 && NoDuplicates(DoubleSix())
    ensures forall p :: p in DoubleSix() <==> 0 <= p.left <= p.right <= 6
  {
    PiecesBelowContents(7);
  }

  /** Appending, one candidate after the other, those not yet present. */
  function AppendMissing(s: seq<Piece>, candidates: seq<Piece>): seq<Piece>
    decreases |candidates|
  {
    if candidates == [] then s
    else
      var t := AppendMissing(s, candidates[..|candidates| - 1]);
      var c := candidates[|candidates| - 1];
      if c in t then t else t + [c]
  }

  /** Appending missing candidates keeps what was there, adds exactly the
      candidates, never adds a piece already there, and never adds a piece
      twice. */
  lemma {:induction false} AppendMissingMeaning(s: seq<Piece>, candidates: seq<Piece>)
    ensures var r := AppendMissing(s, candidates);
            |s| <= |r| && r[..|s|] == s &&
            (forall p :: p in r <==> p in s || p in candidates) &&
            (forall k :: |s| <= k < |r| ==> r[k] !in s) &&
            NoDuplicates(r[|s|..]) &&
            (NoDuplicates(s) ==> NoDuplicates(r))
    decreases |candidates|
  {
    if candidates != [] {
      var init := candidates[..|candidates| - 1];
      AppendMissingMeaning(s, init);
      var t := AppendMissing(s, init);
      var c := candidates[|candidates| - 1];
      assert candidates == init + [c];
      if c !in t {
        var r := t + [c];
        assert r[..|s|] == t[..|s|];
        assert r[|s|..] == t[|s|..] + [c];
        forall k | 0 <= k < |t[|s|..]| ensures t[|s|..][k] != c {
          assert t[|s|..][k] == t[|s| + k];
        }
      }
    }
  }

  /** When nothing repeats, every candidate is appended. */
  lemma {:induction false} AppendMissingAll(s: seq<Piece>, candidates: seq<Piece>)
    requires NoDuplicates(s + candidates)
    ensures AppendMissing(s, candidates) == s + candidates
    decreases |candidates|
  {
    if candidates != [] {
      var init := candidates[..|candidates| - 1];
      var c := candidates[|candidates| - 1];
      assert (s + candidates)[..|s| + |init|] == s + init;
      AppendMissingAll(s, init);
      assert s + candidates == s + init + [c];
      forall x | 0 <= x < |s + init| ensures (s + init)[x] != c {
        assert (s + init)[x] == (s + candidates)[x];
        assert c == (s + candidates)[|s + candidates| - 1];
      }
      assert c !in s + init;
    }
  }

  /** The pieces the set-up loops have visited before `[i, j]`. */
  function Visited(i: nat, j: nat): seq<Piece>
    requires i <= j <= 7 && i <= 6
  {
    PiecesBelow(i) + PiecesFrom(i)[..j - i]
  }

  lemma VisitedStep(i: nat, j: nat)
    requires i <= j < 7
    ensures Visited(i, j + 1) == Visited(i, j) + [Piece(i, j)]
  {
    assert PiecesFrom(i)[..j + 1 - i] == PiecesFrom(i)[..j - i] + [Piece(i, j)];
  }

  lemma VisitedRow(i: nat)
    requires i <= 6
    ensures Visited(i, 7) == PiecesBelow(i + 1) && Visited(i, i) == PiecesBelow(i)
  {
    assert PiecesFrom(i)[..7 - i] == PiecesFrom(i);
  }

  /** One more candidate is one more step of the set-up loop. */
  lemma AppendMissingSnoc(s: seq<Piece>, candidates: seq<Piece>, c: Piece)
    ensures AppendMissing(s, candidates + [c]) ==
              (var t := AppendMissing(s, candidates); if c in t then t else t + [c])
  {
    assert (candidates + [c])[..|candidates|] == candidates;
  }

  /** One pass of the inner set-up loop appends `[i, j]` when missing. */
  lemma ReplenishStep(s0: seq<Piece>, stock: seq<Piece>, i: nat, j: nat)
    requires i <= j < 7 && stock == AppendMissing(s0, Visited(i, j))
    ensures AppendMissing(s0, Visited(i, j + 1)) ==
              if Piece(i, j) in stock then stock else stock + [Piece(i, j)]
  {
    VisitedStep(i, j);
    AppendMissingSnoc(s0, Visited(i, j), Piece(i, j));
  }

  /** Starting from an empty stock, setting up yields the double-six set.
      The empty stock is passed as `s` rather than written as `[]` so that
      the verifier treats the set-up as a term to reason about instead of a
      constant to compute out. */
  lemma ReplenishEmpty(s: seq<Piece>)
    requires s == []
    ensures AppendMissing(s, DoubleSix()) == DoubleSix()
  {
    DoubleSixContents();
    assert [] + DoubleSix() == DoubleSix();
    AppendMissingAll([], DoubleSix());
  }

  /** A complete double-six set in some order: 28 pieces, no two alike,
      exactly the pieces `[i, j]` with `0 <= i <= j <= 6`. */
  ghost predicate FullSet(s: seq<Piece>) {
    |s| == 28 && NoDuplicates(s) && (forall p :: p in s <==> 0 <= p.left <= p.right <= 6)
  }

  /** In a sequence without repetitions every piece occurs at most once. */
  lemma {:induction false} NoDuplicatesCount(s: seq<Piece>, p: Piece)
    requires NoDuplicates(s)
    ensures multiset(s)[p] == if p in s then 1 else 0
  {
    if s != [] {
      assert s == [s[0]] + s[1..];
      assert NoDuplicates(s[1..]) by {
        forall a, b | 0 <= a < b < |s[1..]| ensures s[1..][a] != s[1..][b] {
          assert s[1..][a] == s[a + 1] && s[1..][b] == s[b + 1];
        }
      }
      NoDuplicatesCount(s[1..], p);
      if s[0] == p {
        forall k | 0 <= k < |s[1..]| ensures s[1..][k] != p {
          assert s[1..][k] == s[k + 1];
        }
      }
    }
  }

  /** Two sequences without repetitions that hold the same pieces are
      rearrangements of each other. */
  lemma SameElementsSameMultiset(a: seq<Piece>, b: seq<Piece>)
    requires NoDuplicates(a) && NoDuplicates(b)
    requires forall p :: p in a <==> p in b
    ensures multiset(a) == multiset(b)
  {
    forall p ensures multiset(a)[p] == multiset(b)[p] {
      NoDuplicatesCount(a, p);
      NoDuplicatesCount(b, p);
    }
  }

  /** A complete set in any order is a shuffle of the double-six set, and
      so of what setting up the empty stock `stock` yields (passed as a
      variable for the reason given at `ReplenishEmpty`). */
  lemma FullSetIsShuffle(stock: seq<Piece>, shuffled: seq<Piece>)
    requires stock == [] && FullSet(shuffled)
    ensures multiset(shuffled) == multiset(DoubleSix())
    ensures multiset(shuffled) == multiset(AppendMissing(stock, DoubleSix()))
  {
    ReplenishEmpty(stock);
    DoubleSixContents();
    SameElementsSameMultiset(shuffled, DoubleSix());
  }

  // ---------------------------------------------------------------------
  // The deal

  /** The pieces the player receives when `i` pieces are popped from the
      end of `s`: the first, third, fifth, ... popped. */
  function PlayerDeal(s: seq<Piece>, i: nat): (r: seq<Piece>)
    requires i <= |s|
    ensures |r| == (i + 1) / 2
  {
    seq((i + 1) / 2, k requires 0 <= k < (i + 1) / 2 => s[|s| - 1 - 2 * k])
  }

  /** The pieces the computer receives: the second, fourth, ... popped. */
  function ComputerDeal(s: seq<Piece>, i: nat): (r: seq<Piece>)
    requires i <= |s|
    ensures |r| == i / 2
  {
    seq(i / 2, k requires 0 <= k < i / 2 => s[|s| - 2 - 2 * k])
  }

  /** The two hands together hold exactly the pieces popped. */
  lemma {:induction false} DealSplitsTop(s: seq<Piece>, i: nat)
    requires i <= |s|
    ensures multiset(PlayerDeal(s, i)) + multiset(ComputerDeal(s, i)) == multiset(s[|s| - i..])
    decreases i
  {
    if i > 0 {
      DealSplitsTop(s, i - 1);
      DealStep(s, i - 1);
      var x := s[|s| - i];
      assert s[|s| - i..] == [x] + s[|s| - (i - 1)..];
      assert multiset(s[|s| - i..]) == multiset{x} + multiset(s[|s| - (i - 1)..]);
    }
  }

  /** The next piece popped goes to the player after an even number of
      pops and to the computer after an odd number. */
  lemma DealStep(s: seq<Piece>, i: nat)
    requires i < |s|
    ensures i % 2 == 0 ==> PlayerDeal(s, i + 1) == PlayerDeal(s, i) + [s[|s| - 1 - i]] &&
                           ComputerDeal(s, i + 1) == ComputerDeal(s, i)
    ensures i % 2 == 1 ==> PlayerDeal(s, i + 1) == PlayerDeal(s, i) &&
                           ComputerDeal(s, i + 1) == ComputerDeal(s, i) + [s[|s| - 1 - i]]
  {
    if i % 2 == 0 {
      assert (i + 2) / 2 == (i + 1) / 2 + 1 && (i + 1) / 2 == i / 2;
      assert PlayerDeal(s, i + 1)[i / 2] == s[|s| - 1 - i];
    } else {
      assert (i + 2) / 2 == (i + 1) / 2 && (i + 1) / 2 == i / 2 + 1;
      assert ComputerDeal(s, i + 1)[i / 2] == s[|s| - 1 - i];
    }
  }

  // ---------------------------------------------------------------------
  // Who starts

  predicate HasDouble(hand: seq<Piece>, i: int) {
    Piece(i, i) in hand
  }

  /** Neither hand holds a double above `[i, i]`, up to `[6, 6]`. */
  predicate NoDoubleAbove(computer: seq<Piece>, player: seq<Piece>, i: int) {
    forall j :: i < j <= 6 ==> !HasDouble(computer, j) && !HasDouble(player, j)
  }

  /** The game opens from the hands `c0`, `p0` and the snake `s0` to `c`,
      `p` and `s`: the highest double `[i, i]` with `1 <= i <= 6` that a
      hand holds, the computer's looked at first, leaves its owner's hand
      only and is appended to the snake, and the other side plays next. */
  predicate Opens(c0: seq<Piece>, p0: seq<Piece>, s0: seq<Piece>,
                  c: seq<Piece>, p: seq<Piece>, s: seq<Piece>, next: Side)
  {
    exists i :: 1 <= i <= 6 && NoDoubleAbove(c0, p0, i) && s == s0 + [Piece(i, i)] &&
      if HasDouble(c0, i) then
        c == RemoveFirst(c0, Piece(i, i)) && p == p0 && next == Player
      else
        HasDouble(p0, i) && p == RemoveFirst(p0, Piece(i, i)) && c == c0 && next == Computer
  }

  /** An opening moves one double from a hand to the end of the snake; no
      piece is lost or made, and the side that gave it up does not play
      next. */
  lemma OpensFacts(c0: seq<Piece>, p0: seq<Piece>, s0: seq<Piece>,
                   c: seq<Piece>, p: seq<Piece>, s: seq<Piece>, next: Side)
    requires Opens(c0, p0, s0, c, p, s, next)
    ensures |s| == |s0| + 1 && s[..|s0|] == s0 && s[|s0|].left == s[|s0|].right
    ensures |c| + |p| + 1 == |c0| + |p0|
    ensures next == (if |c| < |c0| then Player else Computer)
    ensures multiset(c) + multiset(p) + multiset(s) == multiset(c0) + multiset(p0) + multiset(s0)
  {
    var i :| 1 <= i <= 6 && NoDoubleAbove(c0, p0, i) && s == s0 + [Piece(i, i)] &&
      if HasDouble(c0, i) then
        c == RemoveFirst(c0, Piece(i, i)) && p == p0 && next == Player
      else
        HasDouble(p0, i) && p == RemoveFirst(p0, Piece(i, i)) && c == c0 && next == Computer;
    assert s[..|s0|] == s0;
    assert multiset(s) == multiset(s0) + multiset{Piece(i, i)};
  }

  /** `list.remove`: the first occurrence of `p` is taken out. */
  function RemoveFirst(s: seq<Piece>, p: Piece): (r: seq<Piece>)
    requires p in s
    ensures multiset(r) == multiset(s) - multiset{p}
    ensures |r| == |s| - 1
  {
    assert s == [s[0]] + s[1..];
    if s[0] == p then s[1..]
    else [s[0]] + RemoveFirst(s[1..], p)
  }

  /** The game state: the four lists the set-up works on. */
  class Table {
    var stock: seq<Piece>
    var computer: seq<Piece>
    var player: seq<Piece>
    var snake: seq<Piece>

    constructor ()
      ensures stock == [] && computer == [] && player == [] && snake == []
    {
      stock, computer, player, snake := [], [], [], [];
    }

    /** The loops of `initialize`: every double-six piece missing from the
        stock is appended, in the order `[0, 0]`, `[0, 1]`, ..., `[6, 6]`. */
    method Replenish()
      modifies this`stock
      ensures stock == AppendMissing(old(stock), DoubleSix())
      ensures computer == old(computer) && player == old(player) && snake == old(snake)
    {
      ghost var s0 := stock;
      for i := 0 to 7
        invariant stock == AppendMissing(s0, PiecesBelow(i))
      {
        ReplenishRow(s0, i);
      }
    }

    /** One round of the outer loop: the inner loop over `[i, i]`, ...,
        `[i, 6]`. */
    method ReplenishRow(ghost s0: seq<Piece>, i: nat)
      requires i < 7 && stock == AppendMissing(s0, PiecesBelow(i))
      modifies this`stock
      ensures stock == AppendMissing(s0, PiecesBelow(i + 1))
    {
      VisitedRow(i);
      for j := i to 7
        invariant stock == AppendMissing(s0, Visited(i, j))
      {
        ReplenishStep(s0, stock, i, j);
        if Piece(i, j) !in stock {
          stock := stock + [Piece(i, j)];
        }
      }
      VisitedRow(i);
    }

    /** `initialize`: replenish the stock, then put it in the order
        `shuffled`, the outcome of the shuffle (any rearrangement of the
        replenished stock). */
    method Initialize(shuffled: seq<Piece>)
      requires multiset(shuffled) == multiset(AppendMissing(stock, DoubleSix()))
      modifies this
      ensures stock == shuffled
      ensures computer == old(computer) && player == old(player) && snake == old(snake)
    {
      Replenish();
      stock := shuffled;
    }

    /** `distribute`: fourteen pieces are popped from the end of the stock,
        alternately to the player and to the computer. */
    method Distribute()
      requires |stock| >= 14
      modifies this
      ensures stock == old(stock)[..|old(stock)| - 14]
      ensures player == old(player) + PlayerDeal(old(stock), 14)
      ensures computer == old(computer) + ComputerDeal(old(stock), 14)
      ensures snake == old(snake)
      ensures multiset(stock) + multiset(player) + multiset(computer) ==
                old(multiset(stock) + multiset(player) + multiset(computer))
    {
      ghost var s0 := stock;
      var n := |stock|;
      for i := 0 to 14
        invariant stock == s0[..n - i]
        invariant player == old(player) + PlayerDeal(s0, i)
        invariant computer == old(computer) + ComputerDeal(s0, i)
        invariant snake == old(snake)
      {
        var top := stock[|stock| - 1];
        assert top == s0[n - 1 - i];
        DealStep(s0, i);
        if i % 2 == 0 {
          player := player + [top];
        } else {
          computer := computer + [top];
        }
        stock := stock[..|stock| - 1];
      }
      DealSplitsTop(s0, 14);
      assert s0 == s0[..n - 14] + s0[n - 14..];
    }

    /** `first_player`: the owner of the highest double from `[6, 6]` down to
        `[1, 1]`, the computer's hand looked at before the player's. */
    method FirstPlayer() returns (r: Option<Start>)
      ensures r == None <==>
                forall i :: 1 <= i <= 6 ==> !HasDouble(computer, i) && !HasDouble(player, i)
      ensures r != None ==>
                exists i :: 1 <= i <= 6 && r.value.double == Piece(i, i) &&
                  (forall j :: i < j <= 6 ==> !HasDouble(computer, j) && !HasDouble(player, j)) &&
                  (if HasDouble(computer, i) then r.value.side == Computer
                   else r.value.side == Player && HasDouble(player, i))
    {
      var i := 6;
      while i > 0
        invariant 0 <= i <= 6
        invariant forall j :: i < j <= 6 ==> !HasDouble(computer, j) && !HasDouble(player, j)
      {
        if Piece(i, i) in computer {
          r := Some(Start(Computer, Piece(i, i)));
          assert HasDouble(computer, i) && r.value.double == Piece(i, i);
          return;
        } else if Piece(i, i) in player {
          r := Some(Start(Player, Piece(i, i)));
          assert HasDouble(player, i) && r.value.double == Piece(i, i);
          return;
        }
        i := i - 1;
      }
      return None;
    }

    /** The start of `start_game`: the double leaves its owner's hand and
        opens the snake; the other side plays next. */
    method PlaceFirst(start: Start) returns (next: Side)
      requires start.side == Computer ==> start.double in computer
      requires start.side == Player ==> start.double in player
      modifies this
      ensures snake == old(snake) + [start.double]
      ensures start.side == Computer ==> computer == RemoveFirst(old(computer), start.double) && player == old(player)
      ensures start.side == Player ==> player == RemoveFirst(old(player), start.double) && computer == old(computer)
      ensures stock == old(stock) && next == Other(start.side)
    {
      if start.side == Computer {
        snake := snake + [start.double];
        computer := RemoveFirst(computer, start.double);
        next := Player;
      } else {
        snake := snake + [start.double];
        player := RemoveFirst(player, start.double);
        next := Computer;
      }
    }

    /** The first two steps of `start_game` on an empty table: set up the
        stock in the order `shuffled`, then deal the two hands. */
    method SetUp(shuffled: seq<Piece>)
      requires stock == [] && computer == [] && player == [] && snake == []
      requires FullSet(shuffled)
      modifies this
      ensures stock == shuffled[..14] && snake == []
      ensures player == PlayerDeal(shuffled, 14) && computer == ComputerDeal(shuffled, 14)
      ensures multiset(stock) + multiset(player) + multiset(computer) == multiset(shuffled)
    {
      FullSetIsShuffle(stock, shuffled);
      Initialize(shuffled);
      ghost var before := multiset(stock) + multiset(player) + multiset(computer);
      assert before == multiset(shuffled);
      Distribute();
    }

    /** The rest of `start_game` once the hands are dealt: find the first
        double and open the snake with it; `None` when no hand holds a
        double from `[1, 1]` to `[6, 6]`. */
    method Begin() returns (next: Option<Side>)
      modifies this
      ensures stock == old(stock)
      ensures next == None <==> NoDoubleAbove(old(computer), old(player), 0)
      ensures next == None ==> snake == old(snake) && computer == old(computer) && player == old(player)
      ensures next != None ==>
                Opens(old(computer), old(player), old(snake), computer, player, snake, next.value)
    {
      var first := FirstPlayer();
      if first == None {
        return None;
      }
      var start := first.value;
      ghost var c0, p0, s0 := computer, player, snake;
      ghost var i :| 1 <= i <= 6 && start.double == Piece(i, i) && NoDoubleAbove(c0, p0, i) &&
        if HasDouble(c0, i) then start.side == Computer
        else start.side == Player && HasDouble(p0, i);
      var side := PlaceFirst(start);
      next := Some(side);
      assert snake == s0 + [Piece(i, i)];
    }

    /** `start_game` on an empty table, with `shuffled` as the outcome of the
        shuffle.  `None` stands for the case where neither dealt hand holds
        a double from 1 to 6, on which the game stops with an error. */
    method StartGame(shuffled: seq<Piece>) returns (next: Option<Side>)
      requires stock == [] && computer == [] && player == [] && snake == []
      requires FullSet(shuffled)
      modifies this
      ensures stock == shuffled[..14]
      ensures var c0, p0 := ComputerDeal(shuffled, 14), PlayerDeal(shuffled, 14);
              (next == None <==> NoDoubleAbove(c0, p0, 0)) &&
              (next == None ==> computer == c0 && player == p0 && snake == []) &&
              (next != None ==> Opens(c0, p0, [], computer, player, snake, next.value))
      ensures multiset(stock) + multiset(computer) + multiset(player) + multiset(snake) ==
                multiset(shuffled)
    {
      SetUp(shuffled);
      ghost var c0, p0 := computer, player;
      next := Begin();
      if next != None {
        OpensFacts(c0, p0, [], computer, player, snake, next.value);
      }
    }
  }
}
