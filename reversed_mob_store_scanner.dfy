/**
 * The read path of the MOB (medium object) extension: a reverse store scanner that,
 * after the base scanner has filled the caller's result buffer, replaces every cell
 * carrying a MOB reference tag by the cell the MOB store resolves it to.
 *
 * The cell type, the reference-tag test, the MOB store's resolve operation and the
 * scan's raw/cache predicates are all parameters: their implementations are not part
 * of this model.
 */
module MobScan {
  import opened Wrappers

  /** The buffer after the resolve loop: either every reference cell was resolved, or
      resolve raised `error` and the loop stopped with `cells` as it then was. */
  datatype Resolution<Cell, E> = Complete(cells: seq<Cell>) | Aborted(error: E, cells: seq<Cell>)

  /** What the in-place resolve loop of `next` leaves in a buffer that held `s`: positions
      are visited left to right, a reference cell is overwritten by what `resolve` returns
      for it (given the scanner's cache flag), and the first failure stops the loop. */
  function ResolveCells<Cell, E>(s: seq<Cell>, cache: bool, isRef: Cell -> bool,
                                 resolve: (Cell, bool) -> Result<Cell, E>): (r: Resolution<Cell, E>)
    ensures |r.cells| == |s|
    decreases |s|
  {
    if s == [] then Complete([])
    else
      var init := ResolveCells(s[..|s| - 1], cache, isRef, resolve);
      var last := s[|s| - 1];
      match init
      case Aborted(e, cs) => Aborted(e, cs + [last])
      case Complete(cs) =>
        if !isRef(last) then Complete(cs + [last])
        else
          match resolve(last, cache)
          case Success(c) => Complete(cs + [c])
          case Failure(e) => Aborted(e, cs + [last])
  }

  /** One iteration of the loop: position `i` is processed after the prefix before it. */
  lemma ResolveStep<Cell, E>(s: seq<Cell>, i: nat, cache: bool, isRef: Cell -> bool,
                             resolve: (Cell, bool) -> Result<Cell, E>)
    requires i < |s|
    ensures var p := ResolveCells(s[..i], cache, isRef, resolve);
            ResolveCells(s[..i + 1], cache, isRef, resolve) ==
              match p
              case Aborted(e, cs) => Aborted(e, cs + [s[i]])
              case Complete(cs) =>
                if !isRef(s[i]) then Complete(cs + [s[i]])
                else match resolve(s[i], cache)
                  case Success(c) => Complete(cs + [c])
                  case Failure(e) => Aborted(e, cs + [s[i]])
  {
    assert s[..i + 1][..i] == s[..i];
  }

  /** Once the loop has stopped on the prefix `s[..j]`, the rest of the buffer is left
      as it was. */
  lemma {:induction false} AbortedStaysAborted<Cell, E>(s: seq<Cell>, j: nat, cache: bool, isRef: Cell -> bool,
                                                       resolve: (Cell, bool) -> Result<Cell, E>)
    requires j <= |s|
    requires ResolveCells(s[..j], cache, isRef, resolve).Aborted?
    ensures var p := ResolveCells(s[..j], cache, isRef, resolve);
            ResolveCells(s, cache, isRef, resolve) == Aborted(p.error, p.cells + s[j..])
    decreases |s|
  {
    var p := ResolveCells(s[..j], cache, isRef, resolve);
    if j == |s| {
      assert s[..j] == s;
    } else {
      var init := s[..|s| - 1];
      assert init[..j] == s[..j];
      AbortedStaysAborted(init, j, cache, isRef, resolve);
      assert init[j..] + [s[|s| - 1]] == s[j..];
    }
  }

  /** A failing reference cell at `i`, after a completed prefix `p`, ends the loop with
      `p` followed by the untouched rest of the buffer. */
  lemma FailureStopsLoop<Cell, E>(s: seq<Cell>, i: nat, p: seq<Cell>, cache: bool, isRef: Cell -> bool,
                                  resolve: (Cell, bool) -> Result<Cell, E>)
    requires i < |s|
    requires ResolveCells(s[..i], cache, isRef, resolve) == Complete(p)
    requires isRef(s[i]) && resolve(s[i], cache).Failure?
    ensures ResolveCells(s, cache, isRef, resolve) == Aborted(resolve(s[i], cache).error, p + s[i..])
  {
    ResolveStep(s, i, cache, isRef, resolve);
    AbortedStaysAborted(s, i + 1, cache, isRef, resolve);
    assert p + [s[i]] + s[i + 1..] == p + s[i..];
  }

  /** After a completed prefix `p`, position `i` holding `x` (its own cell if untagged,
      its resolution if tagged) extends the completed prefix. */
  lemma ContinueLoop<Cell, E>(s: seq<Cell>, i: nat, p: seq<Cell>, x: Cell, cache: bool, isRef: Cell -> bool,
                              resolve: (Cell, bool) -> Result<Cell, E>)
    requires i < |s|
    requires ResolveCells(s[..i], cache, isRef, resolve) == Complete(p)
    requires !isRef(s[i]) ==> x == s[i]
    requires isRef(s[i]) ==> resolve(s[i], cache) == Success(x)
    ensures ResolveCells(s[..i + 1], cache, isRef, resolve) == Complete(p + [x])
  {
    ResolveStep(s, i, cache, isRef, resolve);
  }

  /** Every position keeps its cell unless that cell is a reference cell, and a reference
      cell is either kept (the loop stopped before it) or replaced by its resolution; when
      the loop completes every reference cell is replaced. */
  lemma {:induction false} ResolvedAt<Cell, E>(s: seq<Cell>, i: nat, cache: bool, isRef: Cell -> bool,
                                              resolve: (Cell, bool) -> Result<Cell, E>)
    requires i < |s|
    ensures var r := ResolveCells(s, cache, isRef, resolve);
            && (!isRef(s[i]) ==> r.cells[i] == s[i])
            && (isRef(s[i]) ==> r.cells[i] == s[i] || resolve(s[i], cache) == Success(r.cells[i]))
            && (r.Complete? && isRef(s[i]) ==> resolve(s[i], cache) == Success(r.cells[i]))
    decreases |s|
  {
    var init := s[..|s| - 1];
    if i < |s| - 1 {
      ResolvedAt(init, i, cache, isRef, resolve);
    }
  }

  /** The loop completes exactly when every reference cell in the buffer resolves. */
  lemma {:induction false} CompleteIffAllResolve<Cell, E>(s: seq<Cell>, cache: bool, isRef: Cell -> bool,
                                                         resolve: (Cell, bool) -> Result<Cell, E>)
    ensures ResolveCells(s, cache, isRef, resolve).Complete?
            <==> forall i :: 0 <= i < |s| && isRef(s[i]) ==> resolve(s[i], cache).Success?
    decreases |s|
  {
    if s != [] {
      var init := s[..|s| - 1];
      CompleteIffAllResolve(init, cache, isRef, resolve);
      assert forall i :: 0 <= i < |init| ==> init[i] == s[i];
    }
  }

  /** The loop over `s` stops at position `k`: `s[k]` is a reference cell whose resolution
      failed with the reported error, every reference cell before it resolves (so `k` is
      the first failure), the positions before `k` are exactly a completed
      pass over `s[..k]`, and `k` and everything after it are untouched. */
  ghost predicate StopsAt<Cell, E>(s: seq<Cell>, k: int, cache: bool, isRef: Cell -> bool,
                                   resolve: (Cell, bool) -> Result<Cell, E>, r: Resolution<Cell, E>)
    requires |r.cells| == |s|
  {
    && r.Aborted?
    && 0 <= k < |s|
    && isRef(s[k])
    && resolve(s[k], cache) == Failure(r.error)
    && (forall j :: 0 <= j < k && isRef(s[j]) ==> resolve(s[j], cache).Success?)
    && ResolveCells(s[..k], cache, isRef, resolve) == Complete(r.cells[..k])
    && r.cells[k..] == s[k..]
  }

  /** A stop found in a prefix is still the stop once another cell is appended to it. */
  lemma StopsAtExtends<Cell, E>(init: seq<Cell>, last: Cell, k: int, cache: bool, isRef: Cell -> bool,
                                resolve: (Cell, bool) -> Result<Cell, E>)
    requires StopsAt(init, k, cache, isRef, resolve, ResolveCells(init, cache, isRef, resolve))
    ensures StopsAt(init + [last], k, cache, isRef, resolve, ResolveCells(init + [last], cache, isRef, resolve))
  {
    var s := init + [last];
    var head := ResolveCells(init, cache, isRef, resolve);
    assert s[..|init|] == init;
    var r := ResolveCells(s, cache, isRef, resolve);
    assert r == Aborted(head.error, head.cells + [last]);
    assert s[..k] == init[..k];
    assert r.cells[..k] == head.cells[..k];
    assert r.cells[k..] == s[k..] by {
      assert r.cells[k..] == head.cells[k..] + [last];
      assert s[k..] == init[k..] + [last];
    }
    assert forall j :: 0 <= j < k ==> s[j] == init[j];
  }

  /** When all but the last cell complete and the whole aborts, the last cell is the stop. */
  lemma StopsAtLast<Cell, E>(s: seq<Cell>, cache: bool, isRef: Cell -> bool,
                             resolve: (Cell, bool) -> Result<Cell, E>)
    requires |s| > 0
    requires ResolveCells(s[..|s| - 1], cache, isRef, resolve).Complete?
    requires ResolveCells(s, cache, isRef, resolve).Aborted?
    ensures StopsAt(s, |s| - 1, cache, isRef, resolve, ResolveCells(s, cache, isRef, resolve))
  {
    var n := |s| - 1;
    var r := ResolveCells(s, cache, isRef, resolve);
    var head := ResolveCells(s[..n], cache, isRef, resolve);
    assert r.cells == head.cells + [s[n]];
    assert r.cells[..n] == head.cells;
    assert r.cells[n..] == [s[n]] == s[n..];
    CompleteIffAllResolve(s[..n], cache, isRef, resolve);
    assert forall j :: 0 <= j < n ==> s[..n][j] == s[j];
  }

  /** When the loop stops, it stops at the first reference cell whose resolution failed. */
  lemma {:induction false} AbortedAtFailure<Cell, E>(s: seq<Cell>, cache: bool, isRef: Cell -> bool,
                                                    resolve: (Cell, bool) -> Result<Cell, E>)
    requires ResolveCells(s, cache, isRef, resolve).Aborted?
    ensures exists k :: StopsAt(s, k, cache, isRef, resolve, ResolveCells(s, cache, isRef, resolve))
    decreases |s|
  {
    assert s != [];
    var init, last := s[..|s| - 1], s[|s| - 1];
    assert init + [last] == s;
    if ResolveCells(init, cache, isRef, resolve).Aborted? {
      AbortedAtFailure(init, cache, isRef, resolve);
      var k :| StopsAt(init, k, cache, isRef, resolve, ResolveCells(init, cache, isRef, resolve));
      StopsAtExtends(init, last, k, cache, isRef, resolve);
      assert StopsAt(s, k, cache, isRef, resolve, ResolveCells(s, cache, isRef, resolve));
    } else {
      StopsAtLast(s, cache, isRef, resolve);
    }
  }

  /** A buffer holding no reference cell comes out of the loop unchanged. */
  lemma {:induction false} NoReferenceUnchanged<Cell, E>(s: seq<Cell>, cache: bool, isRef: Cell -> bool,
                                                        resolve: (Cell, bool) -> Result<Cell, E>)
    requires forall i :: 0 <= i < |s| ==> !isRef(s[i])
    ensures ResolveCells(s, cache, isRef, resolve) == Complete(s)
    decreases |s|
  {
    if s != [] {
      var init := s[..|s| - 1];
      NoReferenceUnchanged(init, cache, isRef, resolve);
      assert init + [s[|s| - 1]] == s;
    }
  }

  /** If the MOB store keeps a cell's key parts when resolving it (an assumption about the
      store, not something this model proves), the loop keeps the key of every position. */
  lemma KeysPreserved<Cell, E, Key>(s: seq<Cell>, cache: bool, isRef: Cell -> bool,
                                    resolve: (Cell, bool) -> Result<Cell, E>, key: Cell -> Key)
    requires forall c, b :: resolve(c, b).Success? ==> key(resolve(c, b).value) == key(c)
    ensures var r := ResolveCells(s, cache, isRef, resolve);
            forall i :: 0 <= i < |s| ==> key(r.cells[i]) == key(s[i])
  {
    var r := ResolveCells(s, cache, isRef, resolve);
    forall i | 0 <= i < |s| ensures key(r.cells[i]) == key(s[i]) {
      ResolvedAt(s, i, cache, isRef, resolve);
    }
  }

  /** If resolving a reference cell never yields another reference cell, a completed pass
      leaves no reference cell in the buffer, and a second pass changes nothing. */
  lemma ResolutionIdempotent<Cell, E>(s: seq<Cell>, cache: bool, isRef: Cell -> bool,
                                      resolve: (Cell, bool) -> Result<Cell, E>)
    requires forall c, b :: isRef(c) && resolve(c, b).Success? ==> !isRef(resolve(c, b).value)
    requires ResolveCells(s, cache, isRef, resolve).Complete?
    ensures var r := ResolveCells(s, cache, isRef, resolve);
            && (forall i :: 0 <= i < |s| ==> !isRef(r.cells[i]))
            && ResolveCells(r.cells, cache, isRef, resolve) == r
  {
    var r := ResolveCells(s, cache, isRef, resolve);
    forall i | 0 <= i < |s| ensures !isRef(r.cells[i]) {
      ResolvedAt(s, i, cache, isRef, resolve);
    }
    NoReferenceUnchanged(r.cells, cache, isRef, resolve);
  }

  /** A reverse scanner over a store and its MOB files. `Scan` is the client's scan
      description; `cacheMobBlocks` is fixed when the scanner is built. */
  class ReversedMobStoreScanner<Scan> {
    const scan: Scan
    const cacheMobBlocks: bool

    /** Captures from the scan, once, whether resolved MOB blocks go to the block cache. */
    constructor (scan: Scan, isCacheMobBlocks: Scan -> bool)
      ensures this.scan == scan
      ensures cacheMobBlocks == isCacheMobBlocks(scan)
    {
      this.scan := scan;
      cacheMobBlocks := isCacheMobBlocks(scan);
    }

    /** One `next` call. On entry `outResult` holds what the base reverse scanner put in
        the caller's buffer and `baseResult` is what the base call returned (its "more
        rows" flag, or the exception it raised). Unless the scan is raw, every reference
        cell is overwritten in place by its resolution; a resolve failure propagates. */
    method Next<Cell, E>(outResult: array<Cell>, baseResult: Result<bool, E>,
                         isRawMobScan: Scan -> bool, isMobReferenceCell: Cell -> bool,
                         resolve: (Cell, bool) -> Result<Cell, E>) returns (r: Result<bool, E>)
      modifies outResult
      ensures baseResult.Failure? ==> r == baseResult && outResult[..] == old(outResult[..])
      ensures baseResult.Success? && isRawMobScan(scan) ==> r == baseResult && outResult[..] == old(outResult[..])
      ensures outResult.Length == 0 ==> r == baseResult
      ensures baseResult.Success? && !isRawMobScan(scan) ==>
                match ResolveCells(old(outResult[..]), cacheMobBlocks, isMobReferenceCell, resolve)
                case Complete(cs) => r == baseResult && outResult[..] == cs
                case Aborted(e, cs) => r == Failure(e) && outResult[..] == cs
    {
      if baseResult.Failure? {
        return baseResult;
      }
      var result := baseResult.value;
      if !isRawMobScan(scan) {
        if outResult.Length == 0 {
          return Success(result);
        }
        var failure := ResolveReferences(outResult, isMobReferenceCell, resolve);
        if failure.Some? {
          return Failure(failure.value);
        }
      }
      return Success(result);
    }

    /** The loop of `next`: walks the buffer by index and overwrites each reference cell
        with its resolution under this scanner's `cacheMobBlocks`; stops at, and reports,
        the first failure. */
    method ResolveReferences<Cell, E>(outResult: array<Cell>, isMobReferenceCell: Cell -> bool,
                                      resolve: (Cell, bool) -> Result<Cell, E>) returns (failure: Option<E>)
      modifies outResult
      ensures match ResolveCells(old(outResult[..]), cacheMobBlocks, isMobReferenceCell, resolve)
              case Complete(cs) => failure == None && outResult[..] == cs
              case Aborted(e, cs) => failure == Some(e) && outResult[..] == cs
    {
      ghost var s := outResult[..];
      var i := 0;
      while i < outResult.Length
        invariant 0 <= i <= outResult.Length
        invariant ResolveCells(s[..i], cacheMobBlocks, isMobReferenceCell, resolve) == Complete(outResult[..i])
        invariant forall k :: i <= k < outResult.Length ==> outResult[k] == s[k]
      {
        var cell := outResult[i];
        ghost var done := outResult[..i];
        if isMobReferenceCell(cell) {
          var resolved := resolve(cell, cacheMobBlocks);
          if resolved.Failure? {
            FailureStopsLoop(s, i, done, cacheMobBlocks, isMobReferenceCell, resolve);
            assert outResult[i..] == s[i..];
            assert outResult[..] == done + outResult[i..];
            return Some(resolved.error);
          }
          outResult[i] := resolved.value;
        }
        ContinueLoop(s, i, done, outResult[i], cacheMobBlocks, isMobReferenceCell, resolve);
        assert outResult[..i + 1] == done + [outResult[i]];
        i := i + 1;
      }
      assert s[..i] == s;
      assert outResult[..i] == outResult[..];
      return None;
    }
  }
}
