/**
 Sampling without replacement on a sparse array: `taken` stores only the positions that differ from
 the identity. The random generator is a parameter, so everything holds for every sequence of draws.
 */
module RandomUtil {
  import opened Prelude

  /** A generator gives, for a round and a bound, a position below the bound. */
  ghost predicate ValidDraws(draws: seq<nat>, len: nat) {
    |draws| <= len && forall j :: 0 <= j < |draws| ==> draws[j] < len - j
  }

  /** One round of Fisher-Yates on a dense array: the last element takes the place of the drawn one. */
  function FillHole(pool: seq<nat>, x: nat): (r: seq<nat>)
    requires x < |pool|
    ensures |r| == |pool| - 1
  {
    pool[x := pool[|pool| - 1]][..|pool| - 1]
  }

  /** The elements drawn from the pool, in drawing order. */
  function Drawn(pool: seq<nat>, draws: seq<nat>): (r: seq<nat>)
    requires ValidDraws(draws, |pool|)
    ensures |r| == |draws|
    decreases |draws|
  {
    if draws == [] then []
    else
      TailDraws(draws, |pool|);
      [pool[draws[0]]] + Drawn(FillHole(pool, draws[0]), draws[1..])
  }

  /** What is left in the pool. */
  function Left(pool: seq<nat>, draws: seq<nat>): (r: seq<nat>)
    requires ValidDraws(draws, |pool|)
    ensures |r| == |pool| - |draws|
    decreases |draws|
  {
    if draws == [] then pool
    else
      TailDraws(draws, |pool|);
      Left(FillHole(pool, draws[0]), draws[1..])
  }

  lemma TailDraws(draws: seq<nat>, len: nat)
    requires draws != [] && ValidDraws(draws, len)
    ensures len > 0 && draws[0] < len && ValidDraws(draws[1..], len - 1)
  {}

  function Identity(n: nat): (r: seq<nat>)
    ensures |r| == n
  {
    seq(n, i => i)
  }

  /** The source positions that end up in the result, in drawing order. */
  function Positions(len: nat, draws: seq<nat>): (r: seq<nat>)
    requires ValidDraws(draws, len)
    ensures |r| == |draws|
  {
    Drawn(Identity(len), draws)
  }

  /** The virtual array behind the sparse one. */
  function Virtual(taken: Option<nat>, i: nat): nat {
    if taken.Some? then taken.value else i
  }

  /** The dense array that the first positions of `taken` stand for. */
  ghost predicate Represents(taken: array<Option<nat>>, pool: seq<nat>)
    reads taken
  {
    |pool| <= taken.Length && forall i :: 0 <= i < |pool| ==> pool[i] == Virtual(taken[i], i)
  }

  /** One round on the sparse array, with the bound already lowered to `len`. */
  method TakePosition(taken: array<Option<nat>>, len: nat, x: nat, ghost pool: seq<nat>) returns (p: nat)
    requires Represents(taken, pool) && |pool| == len + 1 && x <= len
    modifies taken
    ensures p == pool[x] && Represents(taken, FillHole(pool, x))
  {
    p := Virtual(taken[x], x);
    taken[x] := Some(Virtual(taken[len], len));
  }

  lemma StartDrawing(taken: array<Option<nat>>, draws: seq<nat>)
    requires forall i :: 0 <= i < taken.Length ==> taken[i] == None
    requires ValidDraws(draws, taken.Length)
    ensures Represents(taken, Identity(taken.Length))
    ensures Positions(taken.Length, draws) == Drawn(Identity(taken.Length), draws)
  {}

  lemma DrawnStep(pool: seq<nat>, draws: seq<nat>, done: nat, positions: seq<nat>)
    requires done < |draws| == |positions| && ValidDraws(draws[done..], |pool|)
    requires positions[done..] == Drawn(pool, draws[done..])
    ensures |pool| > 0 && draws[done] < |pool| && positions[done] == pool[draws[done]]
    ensures ValidDraws(draws[done + 1..], |pool| - 1)
    ensures positions[done + 1..] == Drawn(FillHole(pool, draws[done]), draws[done + 1..])
  {
    TailDraws(draws[done..], |pool|);
    assert draws[done..][1..] == draws[done + 1..] && positions[done..][1..] == positions[done + 1..];
    assert positions[done..][0] == positions[done];
  }

  method GetRandomSubArray<T(0)>(sourceArray: seq<T>, subArraySize: int, draws: seq<nat>) returns (r: Result<seq<T>>)
    requires 0 <= subArraySize <= |sourceArray| ==> |draws| == subArraySize && ValidDraws(draws, |sourceArray|)
    ensures r.Ok? <==> 0 <= subArraySize <= |sourceArray|
    ensures r.Ok? ==>
              && |r.value| == subArraySize
              && forall j :: 0 <= j < subArraySize ==>
                   && Positions(|sourceArray|, draws)[j] < |sourceArray|
                   && r.value[subArraySize - 1 - j] == sourceArray[Positions(|sourceArray|, draws)[j]]
  {
    hide Drawn, Positions, FillHole, ValidDraws, Represents;
    if subArraySize < 0 {
      return Thrown("invalid array length");
    }
    var len := |sourceArray|;
    var result := new T[subArraySize];
    var taken := new Option<nat>[len](_ => None);
    if subArraySize > len {
      return Thrown("getRandom: more elements taken than available");
    }
    ghost var positions := Positions(len, draws);
    ghost var pool := Identity(len);
    StartDrawing(taken, draws);
    PositionsPartition(len, draws);
    assert forall j :: 0 <= j < |positions| ==> positions[j] in positions;
    assert draws[0..] == draws && positions[0..] == positions;
    var left := subArraySize;
    while left > 0
      invariant 0 <= left <= subArraySize && len == |pool| == |sourceArray| - (subArraySize - left)
      invariant Represents(taken, pool)
      invariant ValidDraws(draws[subArraySize - left..], len)
      invariant positions[subArraySize - left..] == Drawn(pool, draws[subArraySize - left..])
      invariant forall j :: 0 <= j < subArraySize - left ==> result[subArraySize - 1 - j] == sourceArray[positions[j]]
    {
      var x := draws[subArraySize - left];
      DrawnStep(pool, draws, subArraySize - left, positions);
      len, left := len - 1, left - 1;
      var p := TakePosition(taken, len, x, pool);
      result[left] := sourceArray[p];
      pool := FillHole(pool, x);
    }
    return Ok(result[..]);
  }

  // ---------------------------------------------------------------- it is sampling without replacement

  lemma FillHoleMultiset(pool: seq<nat>, x: nat)
    requires x < |pool|
    ensures multiset(pool) == multiset{pool[x]} + multiset(FillHole(pool, x))
  {
    var last := |pool| - 1;
    if x == last {
      assert pool == FillHole(pool, x) + [pool[x]];
    } else {
      assert pool == pool[..x] + [pool[x]] + pool[x + 1..last] + [pool[last]];
      assert FillHole(pool, x) == pool[..x] + [pool[last]] + pool[x + 1..last];
    }
  }

  lemma {:induction false} DrawnAndLeftPartition(pool: seq<nat>, draws: seq<nat>)
    requires ValidDraws(draws, |pool|)
    ensures multiset(Drawn(pool, draws)) + multiset(Left(pool, draws)) == multiset(pool)
    decreases |draws|
  {
    if draws != [] {
      TailDraws(draws, |pool|);
      FillHoleMultiset(pool, draws[0]);
      DrawnAndLeftPartition(FillHole(pool, draws[0]), draws[1..]);
    }
  }

  /** Chosen positions and the untouched part of the virtual array together are all positions, each once. */
  lemma PositionsPartition(len: nat, draws: seq<nat>)
    requires ValidDraws(draws, len)
    ensures Permutation(Positions(len, draws) + Left(Identity(len), draws), Identity(len))
    ensures Distinct(Positions(len, draws))
    ensures forall p :: p in Positions(len, draws) ==> p < len
  {
    var chosen, rest := Positions(len, draws), Left(Identity(len), draws);
    DrawnAndLeftPartition(Identity(len), draws);
    PermutationDistinct(chosen + rest, Identity(len));
    PermutationBasics(chosen + rest, Identity(len));
    forall i, j | 0 <= i < j < |chosen| ensures chosen[i] != chosen[j] {
      assert (chosen + rest)[i] != (chosen + rest)[j];
    }
    forall p | p in chosen ensures p < len {
      assert p in chosen + rest;
    }
  }

  /**
   Drawing round by round: each round takes the element at the drawn position, puts the last element there
   and shortens the array by one.
   */
  ghost predicate Rounds(pools: seq<seq<nat>>, draws: seq<nat>, drawn: seq<nat>) {
    && |pools| == |draws| + 1 == |drawn| + 1
    && forall j :: 0 <= j < |draws| ==> Round(pools[j], draws[j], drawn[j], pools[j + 1])
  }

  ghost predicate Round(pool: seq<nat>, x: nat, taken: nat, next: seq<nat>) {
    && x < |pool| == |next| + 1 && taken == pool[x]
    && forall i :: 0 <= i < |next| ==> next[i] == if i == x then pool[|pool| - 1] else pool[i]
  }

  /** The drawn positions are those of the rounds that start with the array `0, 1, 2, ...`. */
  lemma PositionsByRounds(len: nat, draws: seq<nat>) returns (pools: seq<seq<nat>>)
    requires ValidDraws(draws, len)
    ensures Rounds(pools, draws, Positions(len, draws))
    ensures |pools[0]| == len && forall i :: 0 <= i < len ==> pools[0][i] == i
  {
    pools := DrawnByRounds(Identity(len), draws);
  }

  lemma {:induction false} DrawnByRounds(pool: seq<nat>, draws: seq<nat>) returns (pools: seq<seq<nat>>)
    requires ValidDraws(draws, |pool|)
    ensures Rounds(pools, draws, Drawn(pool, draws)) && pools[0] == pool
    decreases |draws|
  {
    pools := [pool];
    if draws != [] {
      TailDraws(draws, |pool|);
      var next := FillHole(pool, draws[0]);
      var rest := DrawnByRounds(next, draws[1..]);
      var drawn := Drawn(pool, draws);
      pools := [pool] + rest;
      assert Round(pool, draws[0], drawn[0], next);
      forall j | 0 <= j < |draws| ensures Round(pools[j], draws[j], drawn[j], pools[j + 1]) {
        if j > 0 {
          assert Round(rest[j - 1], draws[1..][j - 1], Drawn(next, draws[1..])[j - 1], rest[j]);
        }
      }
    }
  }

  // ---------------------------------------------------------------- no choice is favoured

  lemma FillHoleDistinct(pool: seq<nat>, x: nat)
    requires Distinct(pool) && x < |pool|
    ensures Distinct(FillHole(pool, x))
    ensures forall y :: y in FillHole(pool, x) <==> y in pool && y != pool[x]
  {
    var r, last := FillHole(pool, x), |pool| - 1;
    forall y | y in pool && y != pool[x] ensures y in r {
      var i :| 0 <= i < |pool| && pool[i] == y;
      assert r[if i == last then x else i] == y;
    }
  }

  /**
   Every ordered choice of different elements comes from exactly one sequence of draws. So with
   uniform draws every choice is equally likely.
   */
  lemma {:induction false} EachChoiceOnce(pool: seq<nat>, choice: seq<nat>) returns (draws: seq<nat>)
    requires Distinct(pool) && Distinct(choice) && forall y :: y in choice ==> y in pool
    ensures ValidDraws(draws, |pool|) && Drawn(pool, draws) == choice
    ensures forall other :: ValidDraws(other, |pool|) && Drawn(pool, other) == choice ==> other == draws
    decreases |choice|
  {
    if choice == [] {
      draws := [];
    } else {
      assert choice[0] in pool;
      var x :| 0 <= x < |pool| && pool[x] == choice[0];
      FillHoleDistinct(pool, x);
      forall y | y in choice[1..] ensures y in FillHole(pool, x) {
        var i :| 0 <= i < |choice| - 1 && choice[1..][i] == y;
        assert choice[i + 1] != choice[0];
      }
      var rest := EachChoiceOnce(FillHole(pool, x), choice[1..]);
      draws := [x] + rest;
      ValidExtension(x, rest, |pool|);
      assert Drawn(pool, draws) == [pool[x]] + Drawn(FillHole(pool, x), rest);
      forall other | ValidDraws(other, |pool|) && Drawn(pool, other) == choice ensures other == draws {
        TailDraws(other, |pool|);
        var tail := Drawn(FillHole(pool, other[0]), other[1..]);
        assert Drawn(pool, other) == [pool[other[0]]] + tail;
        assert other[0] == x && tail == choice[1..];
        assert other == [other[0]] + other[1..];
      }
    }
  }

  lemma ValidExtension(x: nat, rest: seq<nat>, len: nat)
    requires x < len && ValidDraws(rest, len - 1)
    ensures ValidDraws([x] + rest, len) && ([x] + rest)[1..] == rest
  {}
}
