/**
 * `TestingClass` and the loop of `main` in benchmarks/bench.js.  Each of the
 * 10001 iterations draws an integer in [-20000, 20000] and an identifier,
 * builds a `TestingClass` from them and appends the string its `method`
 * returns to `instances`.  The random draws are inputs; so is the text the
 * global `toString` gives for the value, which the model leaves opaque.
 */
module Bench {
  import opened Uuid
  import opened RandomInt

  /** The last loop index: `i` runs from 0 to 10000 inclusive. */
  const LastIndex: nat := 10000

  /** The bounds passed to `getRandomIntInclusive`. */
  const Low: real := -20000.0
  const High: real := 20000.0

  /** The object built on each iteration. */
  class TestingClass {
    var value: int
    var id: string

    constructor (value: int, id: string)
      ensures this.value == value && this.id == id
    {
      this.value := value;
      this.id := id;
    }

    /**
     * `method`: the text `rendered` that `toString(this.value)` produces,
     * followed by `this.id`, so the result ends with exactly the identifier.
     */
    function Method(rendered: string): (s: string)
      reads this
      ensures |s| == |rendered| + |id|
      ensures s[..|rendered|] == rendered && s[|rendered|..] == id
    {
      rendered + id
    }
  }

  /** The draws one iteration needs: an index for the integer and 31 bytes. */
  predicate IsIterationInput(k: int, bytes: seq<byte>) {
    IsDraw(Span(Low, High), k) && |bytes| == 31
  }

  /** The string iteration `i` appends, for its draw `k`, its bytes and the rendering. */
  function Instance(k: int, bytes: seq<byte>, render: int -> string): (s: string)
    requires IsIterationInput(k, bytes)
    ensures |s| >= 36 && IsV4Layout(s[|s| - 36..])
  {
    var s := render(GetRandomIntInclusive(Low, High, k)) + Uuidv4(bytes);
    assert s[|s| - 36..] == Uuidv4(bytes);
    s
  }

  /** The rounded bounds of the benchmark are -20000 and 20000, a span of 40001 draws. */
  lemma BenchBounds()
    ensures Ceil(Low) == -20000 && Floor(High) == 20000 && Span(Low, High) == 40001
  {
    RoundIntegral(-20000);
    RoundIntegral(20000);
  }

  /**
   * Every appended string is the rendering of a value in [-20000, 20000]
   * followed by a 36-character identifier of the version-4 layout.
   */
  lemma InstanceShape(k: int, bytes: seq<byte>, render: int -> string)
    requires IsIterationInput(k, bytes)
    ensures var s, v := Instance(k, bytes, render), GetRandomIntInclusive(Low, High, k);
      && -20000 <= v <= 20000
      && |s| == |render(v)| + 36
      && s[..|render(v)|] == render(v)
      && IsV4Layout(s[|render(v)|..])
  {
    BenchBounds();
    var s, v := Instance(k, bytes, render), GetRandomIntInclusive(Low, High, k);
    assert s[|render(v)|..] == Uuidv4(bytes);
  }

  /**
   * The loop of `main`, without the clock and the output: iteration `i`
   * consumes `draws[i]` and `blocks[i]` and appends one string.
   */
  method RunBenchmark(draws: seq<int>, blocks: seq<seq<byte>>, render: int -> string)
    returns (instances: seq<string>)
    requires |draws| == LastIndex + 1 && |blocks| == LastIndex + 1
    requires forall i :: 0 <= i <= LastIndex ==> IsIterationInput(draws[i], blocks[i])
    ensures |instances| == LastIndex + 1
    ensures forall i :: 0 <= i <= LastIndex ==> instances[i] == Instance(draws[i], blocks[i], render)
  {
    instances := [];
    var i := 0;
    while i <= LastIndex
      invariant 0 <= i <= LastIndex + 1
      invariant |instances| == i
      invariant forall j :: 0 <= j < i ==> instances[j] == Instance(draws[j], blocks[j], render)
    {
      var obj := new TestingClass(GetRandomIntInclusive(Low, High, draws[i]), Uuidv4(blocks[i]));
      var s := obj.Method(render(obj.value));
      assert s == Instance(draws[i], blocks[i], render);
      ghost var before := instances;
      instances := instances + [s];
      assert forall j :: 0 <= j < i ==> instances[j] == before[j];
      i := i + 1;
    }
  }
}
