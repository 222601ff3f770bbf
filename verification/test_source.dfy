/** `TestSource`: an update component that drains a list of inputs, one per tick. */
module TestSource {
  import opened Wrappers

  /** What a caller may pass as `input_`: only a list is accepted. */
  datatype InputArg = ListArg(items: seq<int>) | OtherArg

  /** `remaining` is the deque of inputs not yet sent; `out` the last value driven. */
  datatype Source = Source(remaining: seq<int>, out: int)

  datatype SourceError = NotAList

  /** The constructor: asserts the argument is a list, then queues its items with `out = 0`. */
  function NewSource(input: InputArg): (r: Result<Source, SourceError>)
    ensures r.Success? <==> input.ListArg?
    ensures r.Success? ==> r.value.remaining == input.items && r.value.out == 0
  {
    match input
    case ListArg(items) => Success(Source(items, 0))
    case OtherArg => Failure(NotAList)
  }

  /** `up_src`: drives the next unconsumed input, or 0 once none is left. */
  function UpSrc(s: Source): (r: Source)
    ensures |s.remaining| == 0 ==> r.out == 0 && |r.remaining| == 0
    ensures |s.remaining| > 0 ==> r.out == s.remaining[0] && r.remaining == s.remaining[1..]
  {
    if |s.remaining| == 0 then s.(out := 0)
    else Source(s.remaining[1..], s.remaining[0])
  }

  /** `done()`. */
  predicate Done(s: Source) {
    |s.remaining| == 0
  }

  function Ticks(s: Source, k: nat): Source
    decreases k
  {
    if k == 0 then s else Ticks(UpSrc(s), k - 1)
  }

  /** After k ticks, k of the inputs (or all, if fewer) have been consumed in list order. */
  lemma TicksConsume(s: Source, k: nat)
    ensures var t := Ticks(s, k);
      && (k <= |s.remaining| ==> t.remaining == s.remaining[k..])
      && (k > |s.remaining| ==> |t.remaining| == 0)
      && (0 < k <= |s.remaining| ==> t.out == s.remaining[k - 1])
      && (k > |s.remaining| ==> t.out == 0)
  {
    TicksRemaining(s, k);
    TicksOut(s, k);
  }

  /** After k ticks the first k inputs are gone, or all of them if there were fewer. */
  lemma {:induction false} TicksRemaining(s: Source, k: nat)
    ensures k <= |s.remaining| ==> Ticks(s, k).remaining == s.remaining[k..]
    ensures k > |s.remaining| ==> |Ticks(s, k).remaining| == 0
    decreases k
  {
    if k > 0 {
      var s1 := UpSrc(s);
      TicksRemaining(s1, k - 1);
      if 0 < k <= |s.remaining| {
        assert s1.remaining[k - 1..] == s.remaining[k..];
      }
    }
  }

  /** After k ticks `out` holds the k-th input, or 0 once the inputs ran out. */
  lemma {:induction false} TicksOut(s: Source, k: nat)
    ensures 0 < k <= |s.remaining| ==> Ticks(s, k).out == s.remaining[k - 1]
    ensures k > |s.remaining| ==> Ticks(s, k).out == 0
    decreases k
  {
    if k > 0 {
      var s1 := UpSrc(s);
      assert Ticks(s, k) == Ticks(s1, k - 1);
      if k == 1 {
        assert Ticks(s1, 0) == s1;
      } else {
        TicksOut(s1, k - 1);
        if k <= |s.remaining| {
          assert s1.remaining[k - 2] == s.remaining[k - 1];
        }
      }
    }
  }

  /** The number of remaining inputs drops by exactly one per tick until it is zero. */
  lemma RemainingDecreases(s: Source)
    ensures |UpSrc(s).remaining| == if |s.remaining| > 0 then |s.remaining| - 1 else 0
  {
  }

  /** A source built from a list is done exactly after `len(input_)` ticks, and
      drives the list's items in order on the ticks before. */
  lemma DoneAfterLength(items: seq<int>, k: nat)
    ensures var t := Ticks(NewSource(ListArg(items)).value, k);
      && (Done(t) <==> k >= |items|)
      && (0 < k <= |items| ==> t.out == items[k - 1])
      && (k > |items| ==> t.out == 0)
  {
    TicksConsume(Source(items, 0), k);
  }
}
