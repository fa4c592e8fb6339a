/** `zip` over type-level tuples. */
module TypeArray {

  /** Pairs up the heads of both lists onto `result` until either list runs out. */
  function ZipWorker<A, B>(xs1: seq<A>, xs2: seq<B>, result: seq<(A, B)>): seq<(A, B)>
    decreases |xs1|
  {
    if |xs1| > 0 && |xs2| > 0 then ZipWorker(xs1[1..], xs2[1..], result + [(xs1[0], xs2[0])])
    else result
  }

  function Zip<A, B>(xs1: seq<A>, xs2: seq<B>): seq<(A, B)>
  {
    ZipWorker(xs1, xs2, [])
  }

  function Min(a: nat, b: nat): nat { if a <= b then a else b }

  lemma {:induction false} ZipWorkerSpec<A, B>(xs1: seq<A>, xs2: seq<B>, result: seq<(A, B)>)
    ensures var r := ZipWorker(xs1, xs2, result);
      && |r| == |result| + Min(|xs1|, |xs2|)
      && r[..|result|] == result
      && forall i :: 0 <= i < Min(|xs1|, |xs2|) ==> r[|result| + i] == (xs1[i], xs2[i])
    decreases |xs1|
  {
    if |xs1| > 0 && |xs2| > 0 {
      var result' := result + [(xs1[0], xs2[0])];
      ZipWorkerSpec(xs1[1..], xs2[1..], result');
      var r := ZipWorker(xs1, xs2, result);
      assert r[..|result'|] == result';
      assert r[..|result|] == result' [..|result|];
      forall i | 0 <= i < Min(|xs1|, |xs2|)
        ensures r[|result| + i] == (xs1[i], xs2[i])
      {
        if i == 0 {
          assert r[|result|] == r[..|result'|][|result|];
        } else {
          assert r[|result'| + (i - 1)] == (xs1[1..][i - 1], xs2[1..][i - 1]);
        }
      }
    }
  }

  /**
    The zip is as long as the shorter input and its i-th pair is the two
    inputs' i-th items (so order is kept and an empty input gives `[]`).
  */
  lemma ZipSpec<A, B>(xs1: seq<A>, xs2: seq<B>)
    ensures |Zip(xs1, xs2)| == Min(|xs1|, |xs2|)
    ensures forall i :: 0 <= i < |Zip(xs1, xs2)| ==> Zip(xs1, xs2)[i] == (xs1[i], xs2[i])
  {
    ZipWorkerSpec(xs1, xs2, []);
  }
}
