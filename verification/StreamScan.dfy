/**
  Incremental decoding of a byte stream, for any decoder that looks at the front of the
  undecoded bytes and either consumes something, waits for more, or fails.
 */
module StreamScan {
  import opened Base

  lemma DropDrop(s: Bytes, i: nat, j: nat)
    requires i + j <= |s|
    ensures s[i..][j..] == s[i + j..]
  {
  }

  lemma DropAppend(a: Bytes, b: Bytes, n: nat)
    requires n <= |a|
    ensures (a + b)[n..] == a[n..] + b
  {
  }

  /** What a decoder does with the bytes in front of it. */
  datatype Step<F, E> =
    | Advance(out: seq<F>, size: nat)
    | Stuck
    | Broken(out: seq<F>, error: E)

  /** A step consumes at least one byte it has, and later bytes never change a verdict. */
  ghost predicate Incremental<F(!new), E(!new)>(step: Bytes -> Step<F, E>) {
    && (forall buf :: step(buf).Advance? ==> 0 < step(buf).size <= |buf|)
    && (forall a, b :: !step(a).Stuck? ==> step(a + b) == step(a))
  }

  /** All output of a stream, how many bytes it took, and the error that ended it, if any. */
  datatype Outcome<F, E> = Outcome(out: seq<F>, used: nat, error: Option<E>)

  ghost function Scan<F(!new), E(!new)>(step: Bytes -> Step<F, E>, buf: Bytes): (o: Outcome<F, E>)
    requires Incremental(step)
    ensures o.used <= |buf|
    decreases |buf|
  {
    match step(buf)
    case Advance(out, n) => After(out, n, Scan(step, buf[n..]))
    case Stuck => Outcome([], 0, None)
    case Broken(out, e) => Outcome(out, 0, Some(e))
  }

  /** The outcome of a stream whose first `n` bytes produced `out`. */
  ghost function After<F, E>(out: seq<F>, n: nat, o: Outcome<F, E>): Outcome<F, E> {
    Outcome(out + o.out, n + o.used, o.error)
  }

  lemma AfterNothing<F, E>(o: Outcome<F, E>)
    ensures After([], 0, o) == o
  {
    assert [] + o.out == o.out;
  }

  lemma AfterAfter<F, E>(a: seq<F>, m: nat, b: seq<F>, n: nat, o: Outcome<F, E>)
    ensures After(a, m, After(b, n, o)) == After(a + b, m + n, o)
  {
    assert a + (b + o.out) == a + b + o.out;
  }

  /** The undecoded bytes, when the stream ended without an error, are really stuck. */
  lemma {:induction false} ScanEndsStuck<F(!new), E(!new)>(step: Bytes -> Step<F, E>, buf: Bytes)
    requires Incremental(step) && Scan(step, buf).error.None?
    ensures step(buf[Scan(step, buf).used..]).Stuck?
    decreases |buf|
  {
    match step(buf)
    case Advance(_, n) =>
      ScanEndsStuck(step, buf[n..]);
      DropDrop(buf, n, Scan(step, buf[n..]).used);
    case Stuck =>
      assert buf[0..] == buf;
  }

  /** A step taken on `a` is taken on `a + b` too. */
  lemma StepOnBoth<F(!new), E(!new)>(step: Bytes -> Step<F, E>, a: Bytes, b: Bytes)
    requires Incremental(step) && step(a).Advance?
    ensures var out, n := step(a).out, step(a).size;
            && Scan(step, a) == After(out, n, Scan(step, a[n..]))
            && Scan(step, a + b) == After(out, n, Scan(step, a[n..] + b))
  {
    assert step(a + b) == step(a);
    DropAppend(a, b, step(a).size);
  }

  /** Decoding a stream in two parts is decoding it at once. */
  lemma {:induction false} ScanSplit<F(!new), E(!new)>(step: Bytes -> Step<F, E>, a: Bytes, b: Bytes)
    requires Incremental(step)
    ensures var first := Scan(step, a);
            Scan(step, a + b) ==
            if first.error.Some? then first
            else After(first.out, first.used, Scan(step, a[first.used..] + b))
    decreases |a|
  {
    if step(a).Advance? {
      var out, n := step(a).out, step(a).size;
      StepOnBoth(step, a, b);
      ScanSplit(step, a[n..], b);
      var first := Scan(step, a[n..]);
      if first.error.None? {
        DropDrop(a, n, first.used);
        AfterAfter(out, n, first.out, first.used, Scan(step, a[n + first.used..] + b));
      }
    } else if step(a).Stuck? {
      assert a[0..] == a;
      AfterNothing(Scan(step, a + b));
    }
  }

  ghost function Concat(chunks: seq<Bytes>): Bytes {
    if chunks == [] then [] else chunks[0] + Concat(chunks[1..])
  }

  lemma {:induction false} ConcatSplit(a: seq<Bytes>, b: seq<Bytes>)
    ensures Concat(a + b) == Concat(a) + Concat(b)
  {
    if a == [] {
      assert a + b == b;
    } else {
      ConcatSplit(a[1..], b);
      assert (a + b)[0] == a[0] && (a + b)[1..] == a[1..] + b;
      Associate(a[0], Concat(a[1..]), Concat(b));
    }
  }

  lemma ConcatCut(chunks: seq<Bytes>, j: nat)
    requires j <= |chunks|
    ensures Concat(chunks) == Concat(chunks[..j]) + Concat(chunks[j..])
  {
    assert chunks == chunks[..j] + chunks[j..];
    ConcatSplit(chunks[..j], chunks[j..]);
  }

  lemma ConcatOne(chunk: Bytes)
    ensures Concat([chunk]) == chunk
  {
    assert [chunk][1..] == [];
  }

  lemma ConcatLast(chunks: seq<Bytes>, chunk: Bytes)
    ensures Concat(chunks + [chunk]) == Concat(chunks) + chunk
  {
    ConcatSplit(chunks, [chunk]);
    ConcatOne(chunk);
  }

  /** What feeding chunk after chunk, until the first error, produces and leaves undecoded. */
  datatype Feed<F, E> = Feed(out: seq<F>, pending: Bytes, error: Option<E>)

  ghost function Fed<F(!new), E(!new)>(step: Bytes -> Step<F, E>, pending: Bytes, chunks: seq<Bytes>)
    : (f: Feed<F, E>)
    requires Incremental(step)
    decreases |chunks|
  {
    if chunks == [] then Feed([], pending, None) else
    var input := pending + chunks[0];
    var o := Scan(step, input);
    if o.error.Some? then Feed(o.out, input[o.used..], o.error) else
    var more := Fed(step, input[o.used..], chunks[1..]);
    Feed(o.out + more.out, more.pending, more.error)
  }

  /** The output and the error of a stream do not depend on how it is cut into chunks. */
  lemma {:induction false} ChunkingInvisible<F(!new), E(!new)>(
    step: Bytes -> Step<F, E>, pending: Bytes, chunks: seq<Bytes>)
    requires Incremental(step) && step(pending).Stuck?
    ensures var stream := pending + Concat(chunks);
            var whole, fed := Scan(step, stream), Fed(step, pending, chunks);
            && fed.out == whole.out && fed.error == whole.error
            && (whole.error.None? ==> fed.pending == stream[whole.used..])
    decreases |chunks|
  {
    if chunks == [] {
      assert pending + [] == pending == pending[0..];
    } else {
      var input, later := pending + chunks[0], Concat(chunks[1..]);
      var o := Scan(step, input);
      Associate(pending, chunks[0], later);
      ScanSplit(step, input, later);
      if o.error.None? {
        ScanEndsStuck(step, input);
        ChunkingInvisible(step, input[o.used..], chunks[1..]);
        DropAppend(input, later, o.used);
        DropDrop(input + later, o.used, Scan(step, input[o.used..] + later).used);
      }
    }
  }

  lemma CleanFeed<F(!new), E(!new)>(step: Bytes -> Step<F, E>, chunks: seq<Bytes>, out: seq<F>)
    requires Incremental(step) && step([]).Stuck?
    requires Scan(step, Concat(chunks)) == Outcome(out, |Concat(chunks)|, None)
    ensures Fed(step, [], chunks) == Feed(out, [], None)
  {
    assert [] + Concat(chunks) == Concat(chunks);
    ChunkingInvisible(step, [], chunks);
  }

  // ----- calls that return their error alone -----

  /** The index of the failing call, or the number of calls if none fails. */
  ghost function FailsAt<F(!new), E(!new)>(step: Bytes -> Step<F, E>, pending: Bytes, chunks: seq<Bytes>): (k: nat)
    requires Incremental(step)
    ensures k <= |chunks|
    decreases |chunks|
  {
    if chunks == [] then 0 else
    var input := pending + chunks[0];
    var o := Scan(step, input);
    if o.error.Some? then 0 else 1 + FailsAt(step, input[o.used..], chunks[1..])
  }

  /** The output of the calls before the failing one. */
  ghost function Returned<F(!new), E(!new)>(step: Bytes -> Step<F, E>, pending: Bytes, chunks: seq<Bytes>): seq<F>
    requires Incremental(step)
    decreases |chunks|
  {
    if chunks == [] then [] else
    var input := pending + chunks[0];
    var o := Scan(step, input);
    if o.error.Some? then [] else o.out + Returned(step, input[o.used..], chunks[1..])
  }

  /** The output of the failing call ahead of its error. */
  ghost function Lost<F(!new), E(!new)>(step: Bytes -> Step<F, E>, pending: Bytes, chunks: seq<Bytes>): seq<F>
    requires Incremental(step)
    decreases |chunks|
  {
    if chunks == [] then [] else
    var input := pending + chunks[0];
    var o := Scan(step, input);
    if o.error.Some? then o.out else Lost(step, input[o.used..], chunks[1..])
  }

  lemma {:induction false} FedSplits<F(!new), E(!new)>(step: Bytes -> Step<F, E>, pending: Bytes, chunks: seq<Bytes>)
    requires Incremental(step)
    ensures Fed(step, pending, chunks).out == Returned(step, pending, chunks) + Lost(step, pending, chunks)
    decreases |chunks|
  {
    if chunks != [] {
      var input := pending + chunks[0];
      var o := Scan(step, input);
      if o.error.None? {
        FedSplits(step, input[o.used..], chunks[1..]);
      }
    }
  }

  lemma {:induction false} NoErrorNoLoss<F(!new), E(!new)>(
    step: Bytes -> Step<F, E>, pending: Bytes, chunks: seq<Bytes>)
    requires Incremental(step)
    ensures Fed(step, pending, chunks).error.None? ==> Lost(step, pending, chunks) == []
    decreases |chunks|
  {
    if chunks != [] {
      var input := pending + chunks[0];
      var o := Scan(step, input);
      if o.error.None? {
        NoErrorNoLoss(step, input[o.used..], chunks[1..]);
      }
    }
  }

  /** What is returned is independent of the chunking exactly if the failing call had no output to lose. */
  lemma ReturnedIsAll<F(!new), E(!new)>(step: Bytes -> Step<F, E>, pending: Bytes, chunks: seq<Bytes>)
    requires Incremental(step) && step(pending).Stuck?
    ensures Returned(step, pending, chunks) == Scan(step, pending + Concat(chunks)).out
            <==> Lost(step, pending, chunks) == []
  {
    FedSplits(step, pending, chunks);
    ChunkingInvisible(step, pending, chunks);
  }

  /** The stream up to the end of chunk `j - 1`, taken apart at the first chunk. */
  lemma FirstCall<F(!new), E(!new)>(step: Bytes -> Step<F, E>, pending: Bytes, chunks: seq<Bytes>, j: nat)
    requires Incremental(step) && 0 < j <= |chunks|
    ensures var input := pending + chunks[0];
            var o := Scan(step, input);
            Scan(step, pending + Concat(chunks[..j])) ==
            if o.error.Some? then o
            else After(o.out, o.used, Scan(step, input[o.used..] + Concat(chunks[1..][..j - 1])))
  {
    var later := Concat(chunks[1..][..j - 1]);
    assert chunks[..j][0] == chunks[0] && chunks[..j][1..] == chunks[1..][..j - 1];
    Associate(pending, chunks[0], later);
    ScanSplit(step, pending + chunks[0], later);
  }

  lemma NoCall<F(!new), E(!new)>(step: Bytes -> Step<F, E>, pending: Bytes, chunks: seq<Bytes>)
    requires Incremental(step) && step(pending).Stuck?
    ensures Scan(step, pending + Concat(chunks[..0])) == Outcome([], 0, None)
  {
    assert pending + Concat(chunks[..0]) == pending;
  }

  /** The stream holds an error by the end of chunk `j - 1`. */
  ghost predicate FailedBy<F(!new), E(!new)>(step: Bytes -> Step<F, E>, pending: Bytes, chunks: seq<Bytes>, j: nat)
    requires Incremental(step) && j <= |chunks|
  {
    Scan(step, pending + Concat(chunks[..j])).error.Some?
  }

  /** The error shows as soon as the failing chunk has arrived, and not before. */
  lemma {:induction false} FailsExactly<F(!new), E(!new)>(
    step: Bytes -> Step<F, E>, pending: Bytes, chunks: seq<Bytes>, j: nat)
    requires Incremental(step) && step(pending).Stuck? && j <= |chunks|
    ensures FailedBy(step, pending, chunks, j) <==> FailsAt(step, pending, chunks) < j
    decreases |chunks|
  {
    if j == 0 {
      NoCall(step, pending, chunks);
    } else {
      FirstCall(step, pending, chunks, j);
      var input := pending + chunks[0];
      var o := Scan(step, input);
      if o.error.None? {
        ScanEndsStuck(step, input);
        FailsExactly(step, input[o.used..], chunks[1..], j - 1);
      }
    }
  }

  /** Two decoders that fail on the same prefixes fail at the same call. */
  lemma SameFailure<F(!new), G(!new), E(!new)>(
    a: Bytes -> Step<F, E>, b: Bytes -> Step<G, E>, pending: Bytes, chunks: seq<Bytes>)
    requires Incremental(a) && Incremental(b) && a(pending).Stuck? && b(pending).Stuck?
    requires forall j :: 0 <= j <= |chunks| ==> FailedBy(a, pending, chunks, j) == FailedBy(b, pending, chunks, j)
    ensures FailsAt(a, pending, chunks) == FailsAt(b, pending, chunks)
  {
    NoEarlier(a, b, pending, chunks);
    NoEarlier(b, a, pending, chunks);
  }

  lemma NoEarlier<F(!new), G(!new), E(!new)>(
    a: Bytes -> Step<F, E>, b: Bytes -> Step<G, E>, pending: Bytes, chunks: seq<Bytes>)
    requires Incremental(a) && Incremental(b) && a(pending).Stuck? && b(pending).Stuck?
    requires forall j :: 0 <= j <= |chunks| ==> FailedBy(a, pending, chunks, j) == FailedBy(b, pending, chunks, j)
    ensures FailsAt(a, pending, chunks) >= FailsAt(b, pending, chunks)
  {
    var j := FailsAt(a, pending, chunks) + 1;
    if j <= |chunks| {
      FailsExactly(a, pending, chunks, j);
      FailsExactly(b, pending, chunks, j);
      assert FailedBy(a, pending, chunks, j) == FailedBy(b, pending, chunks, j);
    }
  }

  /** The bytes that arrived before the failing call. */
  ghost function Ahead<F(!new), E(!new)>(step: Bytes -> Step<F, E>, pending: Bytes, chunks: seq<Bytes>): Bytes
    requires Incremental(step)
  {
    pending + Concat(chunks[..FailsAt(step, pending, chunks)])
  }

  /** What is returned is what the bytes ahead of the failing call hold. */
  lemma {:induction false} ReturnedIsAhead<F(!new), E(!new)>(
    step: Bytes -> Step<F, E>, pending: Bytes, chunks: seq<Bytes>)
    requires Incremental(step) && step(pending).Stuck?
    ensures Scan(step, Ahead(step, pending, chunks)).error.None?
    ensures Returned(step, pending, chunks) == Scan(step, Ahead(step, pending, chunks)).out
    decreases |chunks|
  {
    if chunks == [] || Scan(step, pending + chunks[0]).error.Some? {
      NoCall(step, pending, chunks);
    } else {
      var input := pending + chunks[0];
      var rest := input[Scan(step, input).used..];
      ScanEndsStuck(step, input);
      ReturnedIsAhead(step, rest, chunks[1..]);
      FirstCall(step, pending, chunks, FailsAt(step, pending, chunks));
    }
  }

  /** The calls for the first `i` chunks succeeded, returned `out` and left `pending`. */
  ghost predicate Upto<F(!new), E(!new)>(
    step: Bytes -> Step<F, E>, start: Bytes, chunks: seq<Bytes>, i: nat, out: seq<F>, pending: Bytes)
    requires Incremental(step) && i <= |chunks|
  {
    var all, rest := Fed(step, start, chunks), Fed(step, pending, chunks[i..]);
    && all == Feed(out + rest.out, rest.pending, rest.error)
    && Returned(step, start, chunks) == out + Returned(step, pending, chunks[i..])
  }

  lemma UptoStart<F(!new), E(!new)>(step: Bytes -> Step<F, E>, start: Bytes, chunks: seq<Bytes>)
    requires Incremental(step)
    ensures Upto(step, start, chunks, 0, [], start)
  {
    assert chunks[0..] == chunks;
  }

  lemma UptoStep<F(!new), E(!new)>(
    step: Bytes -> Step<F, E>, start: Bytes, chunks: seq<Bytes>, i: nat, out: seq<F>, pending: Bytes)
    requires Incremental(step) && i < |chunks| && Upto(step, start, chunks, i, out, pending)
    ensures var input := pending + chunks[i];
            var o := Scan(step, input);
            if o.error.None? then Upto(step, start, chunks, i + 1, out + o.out, input[o.used..])
            else Fed(step, start, chunks) == Feed(out + o.out, input[o.used..], o.error) &&
                 Returned(step, start, chunks) == out
  {
    var rest := chunks[i..];
    assert rest[0] == chunks[i] && rest[1..] == chunks[i + 1..];
    var input := pending + chunks[i];
    var o := Scan(step, input);
    if o.error.None? {
      Regroup(out, o.out, Fed(step, input[o.used..], rest[1..]).out);
      Regroup(out, o.out, Returned(step, input[o.used..], rest[1..]));
    }
  }

  lemma UptoEnd<F(!new), E(!new)>(
    step: Bytes -> Step<F, E>, start: Bytes, chunks: seq<Bytes>, out: seq<F>, pending: Bytes)
    requires Incremental(step) && Upto(step, start, chunks, |chunks|, out, pending)
    ensures Fed(step, start, chunks) == Feed(out, pending, None) && Returned(step, start, chunks) == out
  {
    assert chunks[|chunks|..] == [];
  }

  lemma Regroup<T>(a: seq<T>, b: seq<T>, c: seq<T>)
    ensures a + (b + c) == (a + b) + c
  {
  }

  lemma LastOfConcat<T>(a: seq<T>, b: seq<T>)
    requires b != []
    ensures (a + b)[..|a + b| - 1] == a + b[..|b| - 1] && (a + b)[|a + b| - 1] == b[|b| - 1]
  {
  }

  // ----- when nothing is lost -----

  /** Errors come without output. */
  ghost predicate QuietErrors<F(!new), E(!new)>(step: Bytes -> Step<F, E>) {
    forall buf :: step(buf).Broken? ==> step(buf).out == []
  }

  /** A step needs only the bytes it consumes. */
  ghost predicate SelfContained<F(!new), E(!new)>(step: Bytes -> Step<F, E>) {
    forall buf :: step(buf).Advance? && step(buf).size <= |buf| ==> !step(buf[..step(buf).size]).Stuck?
  }

  /** Where the last step with output ends; 0 if there is none. */
  ghost function LastYield<F(!new), E(!new)>(step: Bytes -> Step<F, E>, buf: Bytes): (n: nat)
    requires Incremental(step)
    ensures n <= |buf|
    decreases |buf|
  {
    if !step(buf).Advance? then 0 else
    var size := step(buf).size;
    var later := LastYield(step, buf[size..]);
    if later > 0 then size + later else if step(buf).out != [] then size else 0
  }

  lemma {:induction false} NoYieldNoOutput<F(!new), E(!new)>(step: Bytes -> Step<F, E>, buf: Bytes)
    requires Incremental(step) && QuietErrors(step)
    ensures LastYield(step, buf) == 0 <==> Scan(step, buf).out == []
    decreases |buf|
  {
    if step(buf).Advance? {
      NoYieldNoOutput(step, buf[step(buf).size..]);
    }
  }

  lemma {:induction false} YieldSplit<F(!new), E(!new)>(step: Bytes -> Step<F, E>, a: Bytes, b: Bytes)
    requires Incremental(step) && Scan(step, a).error.None?
    ensures var used := Scan(step, a).used;
            var later := LastYield(step, a[used..] + b);
            LastYield(step, a + b) == if later > 0 then used + later else LastYield(step, a)
    decreases |a|
  {
    match step(a)
    case Advance(out, n) =>
      DropAppend(a, b, n);
      YieldSplit(step, a[n..], b);
      DropDrop(a, n, Scan(step, a[n..]).used);
    case Stuck =>
      assert a[0..] == a;
  }

  /** A step that ends within `a` was possible before `b` arrived. */
  lemma WithinFront<F(!new), E(!new)>(step: Bytes -> Step<F, E>, a: Bytes, b: Bytes)
    requires Incremental(step) && SelfContained(step) && step(a + b).Advance?
    ensures step(a + b).size <= |a| ==> !step(a).Stuck?
  {
    var n := step(a + b).size;
    if n <= |a| {
      assert (a + b)[..n] == a[..n];
      assert a[..n] + a[n..] == a;
    }
  }

  /** Later bytes add output exactly if some step with output ends among them. */
  lemma AddsNothing<F(!new), E(!new)>(step: Bytes -> Step<F, E>, a: Bytes, b: Bytes)
    requires Incremental(step) && QuietErrors(step) && SelfContained(step) && Scan(step, a).error.None?
    ensures Scan(step, a + b).out == Scan(step, a).out <==> LastYield(step, a + b) <= |a|
  {
    var used := Scan(step, a).used;
    var rest := a[used..] + b;
    ScanSplit(step, a, b);
    YieldSplit(step, a, b);
    NoYieldNoOutput(step, rest);
    ScanEndsStuck(step, a);
    if LastYield(step, rest) > 0 {
      WithinFront(step, a[used..], b);
    }
  }

  /**
    Calls that return their error alone return everything decoded from the stream if and only
    if the last piece of output ends no later than the bytes that arrived before the failing call.
   */
  lemma NothingLostExactly<F(!new), E(!new)>(step: Bytes -> Step<F, E>, pending: Bytes, chunks: seq<Bytes>)
    requires Incremental(step) && QuietErrors(step) && SelfContained(step) && step(pending).Stuck?
    ensures var stream := pending + Concat(chunks);
            Returned(step, pending, chunks) == Scan(step, stream).out
            <==> LastYield(step, stream) <= |Ahead(step, pending, chunks)|
  {
    var k := FailsAt(step, pending, chunks);
    ConcatCut(chunks, k);
    Associate(pending, Concat(chunks[..k]), Concat(chunks[k..]));
    ReturnedIsAhead(step, pending, chunks);
    AddsNothing(step, Ahead(step, pending, chunks), Concat(chunks[k..]));
  }

  /** Where every step has output, the last output ends where decoding stopped. */
  lemma {:induction false} EveryStepYields<F(!new), E(!new)>(step: Bytes -> Step<F, E>, buf: Bytes)
    requires Incremental(step) && forall b :: step(b).Advance? ==> step(b).out != []
    ensures LastYield(step, buf) == Scan(step, buf).used
    decreases |buf|
  {
    if step(buf).Advance? {
      EveryStepYields(step, buf[step(buf).size..]);
    }
  }

  // ----- renaming the output -----

  /** The same steps with their output passed through `f`. */
  ghost function Mapped<V(!new), F(!new), E(!new)>(step: Bytes -> Step<V, E>, f: seq<V> -> seq<F>)
    : Bytes -> Step<F, E>
  {
    (buf: Bytes) =>
      match step(buf)
      case Advance(out, n) => Advance(f(out), n)
      case Stuck => Stuck
      case Broken(out, e) => Broken(f(out), e)
  }

  ghost predicate Homomorphic<V(!new), F>(f: seq<V> -> seq<F>) {
    f([]) == [] && forall a, b :: f(a + b) == f(a) + f(b)
  }

  lemma MappedIncremental<V(!new), F(!new), E(!new)>(step: Bytes -> Step<V, E>, f: seq<V> -> seq<F>)
    requires Incremental(step)
    ensures Incremental(Mapped(step, f))
    ensures SelfContained(step) ==> SelfContained(Mapped(step, f))
  {
    var mapped := Mapped(step, f);
    forall a: Bytes, b: Bytes | !mapped(a).Stuck?
      ensures mapped(a + b) == mapped(a)
    {
      assert step(a + b) == step(a);
    }
    if SelfContained(step) {
      forall buf: Bytes | mapped(buf).Advance? && mapped(buf).size <= |buf|
        ensures !mapped(buf[..mapped(buf).size]).Stuck?
      {
        assert step(buf).size == mapped(buf).size;
      }
    }
  }

  lemma {:induction false} MappedScan<V(!new), F(!new), E(!new)>(
    step: Bytes -> Step<V, E>, f: seq<V> -> seq<F>, buf: Bytes)
    requires Incremental(step) && Incremental(Mapped(step, f)) && Homomorphic(f)
    ensures var o := Scan(step, buf);
            Scan(Mapped(step, f), buf) == Outcome(f(o.out), o.used, o.error)
    decreases |buf|
  {
    match step(buf)
    case Advance(out, n) => MappedScan(step, f, buf[n..]);
    case _ =>
  }

  /** A front that is a whole step on its own is that step, whatever follows. */
  lemma FrontDecided<F(!new), E(!new)>(step: Bytes -> Step<F, E>, front: Bytes, rest: Bytes)
    requires Incremental(step) && !step(front).Stuck?
    requires step(front).Advance? ==> step(front).size == |front|
    ensures step(front).Advance? ==>
              Scan(step, front + rest) == After(step(front).out, |front|, Scan(step, rest))
    ensures step(front).Broken? ==>
              Scan(step, front + rest) == Outcome(step(front).out, 0, Some(step(front).error))
  {
    assert step(front + rest) == step(front);
    assert (front + rest)[|front|..] == rest;
  }

  lemma CleanFront<F(!new), E(!new)>(step: Bytes -> Step<F, E>, front: Bytes, rest: Bytes)
    requires Incremental(step) && !step(front).Stuck?
    requires step(front).Advance? ==> step(front).size == |front|
    requires Scan(step, front + rest).error.None?
    ensures Scan(step, rest).error.None?
    ensures Scan(step, front + rest).used == |front| + Scan(step, rest).used
  {
    FrontDecided(step, front, rest);
  }

  lemma CleanStep<F(!new), E(!new)>(step: Bytes -> Step<F, E>, stream: Bytes)
    requires Incremental(step) && stream != []
    requires Scan(step, stream).error.None? && Scan(step, stream).used == |stream|
    ensures step(stream).Advance?
    ensures var rest := stream[step(stream).size..];
            Scan(step, rest).error.None? && Scan(step, rest).used == |rest|
  {
  }

  // ----- what a failing call gives up -----

  lemma FirstReturned<F(!new), E(!new)>(step: Bytes -> Step<F, E>, chunk: Bytes, rest: seq<Bytes>)
    requires Incremental(step)
    ensures var o := Scan(step, chunk);
            Returned(step, [], [chunk] + rest) ==
            if o.error.Some? then [] else o.out + Returned(step, chunk[o.used..], rest)
  {
    assert ([chunk] + rest)[0] == chunk && ([chunk] + rest)[1..] == rest && [] + chunk == chunk;
  }

  lemma FailingCall<F(!new), E(!new)>(step: Bytes -> Step<F, E>, chunk: Bytes)
    requires Incremental(step) && Scan(step, chunk).error.Some?
    ensures Returned(step, [], [chunk]) == []
  {
    FirstReturned(step, chunk, []);
    assert [chunk] + [] == [chunk];
  }

  /** A whole step and an error, in two calls and in one. */
  lemma OneCallOrTwo<F(!new), E(!new)>(step: Bytes -> Step<F, E>, a: Bytes, b: Bytes, out: seq<F>)
    requires Incremental(step) && step(a) == Advance(out, |a|) && step([]).Stuck? && step(b).Broken?
    ensures Returned(step, [], [a, b]) == out && Returned(step, [], [a + b]) == []
  {
    FrontDecided(step, a, b);
    FailingCall(step, a + b);
    FailingCall(step, b);
    WholeStep(step, a, out);
    FirstReturned(step, a, [b]);
    assert [a] + [b] == [a, b];
  }

  lemma WholeStep<F(!new), E(!new)>(step: Bytes -> Step<F, E>, a: Bytes, out: seq<F>)
    requires Incremental(step) && step(a) == Advance(out, |a|) && step([]).Stuck?
    ensures Scan(step, a) == Outcome(out, |a|, None) && a[|a|..] == []
  {
    assert a[|a|..] == [] && out + [] == out;
  }

  lemma SameStream(whole: Bytes, a: Bytes, b: Bytes)
    requires a + b == whole
    ensures Concat([whole]) == Concat([a, b])
  {
    ConcatOne(whole);
    ConcatOne(b);
    assert [a, b][1..] == [b];
  }

  /** Whatever the chunks, the calls return everything decoded from the stream. */
  ghost predicate NeverLoses<F(!new), E(!new)>(step: Bytes -> Step<F, E>)
    requires Incremental(step)
  {
    forall chunks :: Returned(step, [], chunks) == Scan(step, Concat(chunks)).out
  }

  lemma {:induction false} NeverFails<F(!new), E(!new)>(step: Bytes -> Step<F, E>, buf: Bytes)
    requires Incremental(step) && forall b :: !step(b).Broken?
    ensures Scan(step, buf).error.None?
    decreases |buf|
  {
    if step(buf).Advance? {
      NeverFails(step, buf[step(buf).size..]);
    }
  }

  /** Without errors nothing is lost. */
  lemma ErrorFreeNeverLoses<F(!new), E(!new)>(step: Bytes -> Step<F, E>)
    requires Incremental(step) && step([]).Stuck? && forall b :: !step(b).Broken?
    ensures NeverLoses(step)
  {
    forall chunks ensures Returned(step, [], chunks) == Scan(step, Concat(chunks)).out {
      assert [] + Concat(chunks) == Concat(chunks);
      NeverFails(step, Concat(chunks));
      ChunkingInvisible(step, [], chunks);
      NoErrorNoLoss(step, [], chunks);
      ReturnedIsAll(step, [], chunks);
    }
  }

  /** A whole step with output and an error behind it lose the output when they arrive together. */
  lemma LosesTogether<F(!new), E(!new)>(step: Bytes -> Step<F, E>, a: Bytes, b: Bytes, out: seq<F>)
    requires Incremental(step) && step(a) == Advance(out, |a|) && step([]).Stuck? && step(b).Broken? && out != []
    ensures !NeverLoses(step)
  {
    OneCallOrTwo(step, a, b, out);
    SameStream(a + b, a, b);
    assert Returned(step, [], [a, b]) != Returned(step, [], [a + b]);
  }

  // ----- readers that take a stream in pieces -----

  /** After producing `sent`, a reader is `used` bytes into the stream with `tail` to go. */
  ghost predicate Tracks<F(!new), E(!new)>(
    step: Bytes -> Step<F, E>, stream: Bytes, sent: seq<F>, used: nat, tail: Bytes)
    requires Incremental(step)
  {
    && used <= |stream|
    && stream[used..] == tail
    && Scan(step, stream) == After(sent, used, Scan(step, tail))
  }

  /** The right response to the bytes `seen` since the last boundary; `open` is what stays pending. */
  ghost predicate Responds<F, E>(
    verdict: Step<F, E>, seen: Bytes, out: seq<F>, error: Option<E>, open: Bytes)
  {
    match verdict
    case Advance(o, n) => out == o && error.None? && open == [] && n == |seen|
    case Stuck => out == [] && error.None? && open == seen
    case Broken(o, e) => out == o && error == Some(e)
  }

  lemma TracksStart<F(!new), E(!new)>(step: Bytes -> Step<F, E>, stream: Bytes)
    requires Incremental(step)
    ensures Tracks(step, stream, [], 0, stream)
  {
    AfterNothing(Scan(step, stream));
    assert stream[0..] == stream;
  }

  lemma TracksEnd<F(!new), E(!new)>(
    step: Bytes -> Step<F, E>, stream: Bytes, sent: seq<F>, used: nat, tail: Bytes)
    requires Incremental(step) && Tracks(step, stream, sent, used, tail) && step(tail).Stuck?
    ensures Scan(step, stream) == Outcome(sent, used, None) && stream[used..] == tail
  {
    assert sent + [] == sent;
  }

  /** A whole step at the current position moves it behind the step. */
  lemma TracksAdvance<F(!new), E(!new)>(
    step: Bytes -> Step<F, E>, stream: Bytes, sent: seq<F>, used: nat, front: Bytes, rest: Bytes)
    requires Incremental(step) && Tracks(step, stream, sent, used, front + rest)
    requires step(front).Advance? && step(front).size == |front|
    ensures Tracks(step, stream, sent + step(front).out, used + |front|, [] + rest)
  {
    FrontDecided(step, front, rest);
    AfterAfter(sent, used, step(front).out, |front|, Scan(step, rest));
    PastFront(stream, used, front, rest);
  }

  lemma TracksBroken<F(!new), E(!new)>(
    step: Bytes -> Step<F, E>, stream: Bytes, sent: seq<F>, used: nat, front: Bytes, rest: Bytes)
    requires Incremental(step) && Tracks(step, stream, sent, used, front + rest) && step(front).Broken?
    ensures Scan(step, stream) == Outcome(sent + step(front).out, used, Some(step(front).error))
  {
    FrontDecided(step, front, rest);
  }

  /** Responding rightly to each piece of input keeps track of the whole stream. */
  lemma ResponseTracks<F(!new), E(!new)>(
    step: Bytes -> Step<F, E>, stream: Bytes, sent: seq<F>, used: nat,
    before: Bytes, piece: Bytes, rest: Bytes, out: seq<F>, error: Option<E>, open: Bytes)
    requires Incremental(step) && Tracks(step, stream, sent, used, before + (piece + rest))
    requires Responds(step(before + piece), before + piece, out, error, open)
    ensures error.None? ==>
              && |open| <= |before + piece|
              && Tracks(step, stream, sent + out, used + |before + piece| - |open|, open + rest)
    ensures error.Some? ==> Scan(step, stream) == Outcome(sent + out, used, error)
  {
    Associate(before, piece, rest);
    var front := before + piece;
    if step(front).Advance? {
      TracksAdvance(step, stream, sent, used, front, rest);
    } else if step(front).Broken? {
      TracksBroken(step, stream, sent, used, front, rest);
    } else {
      assert sent + [] == sent;
    }
  }

  lemma Associate(a: Bytes, b: Bytes, c: Bytes)
    ensures a + (b + c) == a + b + c
  {
  }

  lemma PastFront(stream: Bytes, used: nat, front: Bytes, rest: Bytes)
    requires used <= |stream| && stream[used..] == front + rest
    ensures used + |front| <= |stream| && stream[used + |front|..] == rest == [] + rest
  {
    DropDrop(stream, used, |front|);
    assert (front + rest)[|front|..] == rest;
  }
}
