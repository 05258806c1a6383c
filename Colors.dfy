/**
  * The colour cycler (src/colors.ts): a module-level index into a fixed
  * palette, read and advanced with wrap-around on every call.
  */
module Colors {

  /** `chalkColors`; "redBright" appears twice, so colours are cycled by index. */
  const ChalkColors: seq<string> := [
    "greenBright", "yellowBright", "magentaBright", "cyanBright", "whiteBright",
    "redBright", "blueBright", "green", "yellow", "magenta", "cyan", "white",
    "red", "redBright"
  ]

  /** The index after `i`: back to 0 at the end of the palette. */
  function Next(i: nat): (j: nat)
    requires i < |ChalkColors|
    ensures j < |ChalkColors|
    ensures j == (i + 1) % |ChalkColors|
  {
    if i == |ChalkColors| - 1 then 0 else i + 1
  }

  /** The index reached from `i` after `n` calls. */
  function IndexAfter(i: nat, n: nat): (j: nat)
    requires i < |ChalkColors|
    ensures j < |ChalkColors|
  {
    if n == 0 then i else Next(IndexAfter(i, n - 1))
  }

  /** Stepping `n` times from `i` is adding `n` modulo the palette length. */
  lemma {:induction false} IndexAfterIsModular(i: nat, n: nat)
    requires i < |ChalkColors|
    ensures IndexAfter(i, n) == (i + n) % |ChalkColors|
  {
    if n > 0 {
      IndexAfterIsModular(i, n - 1);
      WrapStep(i + n - 1);
    }
  }

  /** Adding one after reducing is the same as reducing after adding one. */
  lemma WrapStep(x: nat)
    ensures (x % |ChalkColors| + 1) % |ChalkColors| == (x + 1) % |ChalkColors|
  {
    var n := |ChalkColors|;
    assert n == 14;
    var q, r := x / n, x % n;
    assert x == n * q + r;
    if r < n - 1 {
      assert x + 1 == n * q + (r + 1);
    } else {
      assert x + 1 == n * (q + 1);
    }
  }

  /** A full round of calls brings the index back to where it started. */
  lemma FullRoundReturns(i: nat)
    requires i < |ChalkColors|
    ensures IndexAfter(i, |ChalkColors|) == i
  {
    IndexAfterIsModular(i, |ChalkColors|);
  }

  /** A string styled with a palette colour (chalk's escape codes are not modelled). */
  datatype Styled = Styled(color: string, text: string)

  /** The module-level `currentColorIndex` and the calls made so far. */
  class ColorCycler {
    var index: nat
    ghost var calls: nat

    /** The index never leaves the palette and is the number of calls modulo its length. */
    ghost predicate Valid()
      reads this
    {
      index < |ChalkColors| && index == IndexAfter(0, calls)
    }

    /** The state when the module is loaded: `currentColorIndex = 0`. */
    constructor()
      ensures Valid() && index == 0 && calls == 0
    {
      index := 0;
      calls := 0;
    }

    /** `applyRandomColor(str)`: style with the current colour, then advance the index. */
    method ApplyRandomColor(str: string) returns (styled: Styled)
      requires Valid()
      modifies this
      ensures Valid()
      ensures styled == Styled(ChalkColors[old(index)], str)
      ensures index == Next(old(index)) && calls == old(calls) + 1
    {
      styled := Styled(ChalkColors[index], str);
      index := if index == |ChalkColors| - 1 then 0 else index + 1;
      calls := calls + 1;
    }
  }

  /** The colour the k-th call (from 0) uses when the cycler starts fresh. */
  lemma KthCallColor(k: nat)
    ensures IndexAfter(0, k) == k % |ChalkColors|
  {
    IndexAfterIsModular(0, k);
  }

  /**
    * From a fresh cycler, `2 * |ChalkColors|` calls use the palette in order
    * twice over.
    */
  method TwoPasses() returns (colors: seq<string>)
    ensures colors == ChalkColors + ChalkColors
  {
    var cycler := new ColorCycler();
    colors := [];
    var k := 0;
    while k < 2 * |ChalkColors|
      invariant 0 <= k <= 2 * |ChalkColors|
      invariant cycler.Valid() && cycler.calls == k
      invariant colors == (ChalkColors + ChalkColors)[..k]
    {
      KthCallColor(k);
      DoubledPalette(k);
      var styled := cycler.ApplyRandomColor("");
      colors := colors + [styled.color];
      k := k + 1;
    }
  }

  /** Position `k` of the palette written twice is colour `k` modulo its length. */
  lemma DoubledPalette(k: nat)
    requires k < 2 * |ChalkColors|
    ensures (ChalkColors + ChalkColors)[k] == ChalkColors[k % |ChalkColors|]
  {
    Doubled(ChalkColors, k, k % |ChalkColors|);
  }

  /** In a sequence written twice, position `k` holds the element at `k` minus any full rounds. */
  lemma Doubled<T>(s: seq<T>, k: nat, m: nat)
    requires k < 2 * |s| && m < |s| && (m == k || m == k - |s|)
    ensures (s + s)[k] == s[m]
  {
  }
}
