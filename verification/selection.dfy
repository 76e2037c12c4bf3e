/** The best-candidate scan shared by the site searches of `scrapers/` and by
    the legacy matcher of `scrapers.py`: candidates are visited in page order,
    weak ones skipped, and the best one so far replaced only by a strictly
    higher score with a usable price and link. */
module Selection {
  import opened Wrappers

  /** A candidate as the scan sees it: its (stripped) title, its score, the
      parsed price (`None` when missing or unparsable) and the link (`None`
      when the element or the attribute is missing). */
  datatype Assessed = Assessed(title: string, score: real, price: Option<real>, link: Option<string>)

  /** The constants of one scan: the skip threshold, the optional
      "confident enough" score that ends the scan once the best reaches it,
      and the optional index past which a scan that has a best ends. */
  datatype Policy = Policy(floor: real, confident: Option<real>, cutoff: Option<nat>)

  /** `price` is truthy: present and not `0.0`. */
  predicate PriceOk(a: Assessed) {
    a.price.Some? && a.price.value != 0.0
  }

  /** `link` is truthy: present and not empty. */
  predicate LinkOk(a: Assessed) {
    a.link.Some? && |a.link.value| > 0
  }

  /** The candidate at `i` was read (its title lookup did not raise) and
      passed the skip threshold. */
  predicate Considered(xs: seq<Option<Assessed>>, p: Policy, i: int) {
    0 <= i < |xs| && xs[i].Some? && xs[i].value.score >= p.floor
  }

  /** The candidate at `i` can win: considered, better than the initial best
      score `0.0`, with a truthy price and link. */
  predicate Eligible(xs: seq<Option<Assessed>>, p: Policy, i: int) {
    Considered(xs, p, i) && xs[i].value.score > 0.0 && PriceOk(xs[i].value) && LinkOk(xs[i].value)
  }

  function Score(xs: seq<Option<Assessed>>, i: int): real
    requires 0 <= i < |xs| && xs[i].Some?
  {
    xs[i].value.score
  }

  /** The scan ends right after candidate `i` (given it did not end before):
      either `i` is eligible and reaches the confident score, which makes it
      the new best, or `i` is considered, lies past the cut-off index, and
      some eligible candidate up to `i` exists. */
  predicate StopsAt(xs: seq<Option<Assessed>>, p: Policy, i: int) {
    && Considered(xs, p, i)
    && (|| (p.confident.Some? && Eligible(xs, p, i) && Score(xs, i) >= p.confident.value)
        || (p.cutoff.Some? && i > p.cutoff.value && exists j :: 0 <= j <= i && Eligible(xs, p, j)))
  }

  /** How many candidates the scan visits from index `i` on. */
  function ScanFrom(xs: seq<Option<Assessed>>, p: Policy, i: nat): (n: nat)
    requires i <= |xs|
    ensures i <= n <= |xs|
    ensures forall k :: i <= k < n - 1 ==> !StopsAt(xs, p, k)
    ensures n < |xs| ==> i < n && StopsAt(xs, p, n - 1)
    decreases |xs| - i
  {
    if i == |xs| then i
    else if StopsAt(xs, p, i) then i + 1
    else ScanFrom(xs, p, i + 1)
  }

  /** How many candidates the scan visits: up to and including the first
      one it stops at, or all of them. */
  function Scanned(xs: seq<Option<Assessed>>, p: Policy): (n: nat)
    ensures n <= |xs|
    ensures forall k :: 0 <= k < n - 1 ==> !StopsAt(xs, p, k)
    ensures n < |xs| ==> 0 < n && StopsAt(xs, p, n - 1)
  {
    ScanFrom(xs, p, 0)
  }

  /** `k` is the earliest eligible candidate of greatest score among the
      first `n`. */
  predicate IsFirstMax(xs: seq<Option<Assessed>>, p: Policy, n: int, k: int) {
    && 0 <= k < n <= |xs|
    && Eligible(xs, p, k)
    && (forall j :: 0 <= j < n && Eligible(xs, p, j) ==> Score(xs, j) <= Score(xs, k))
    && (forall j :: 0 <= j < k && Eligible(xs, p, j) ==> Score(xs, j) < Score(xs, k))
  }

  /** A candidate that is not a strict improvement leaves the first maximum
      where it was. */
  lemma KeepFirstMax(xs: seq<Option<Assessed>>, p: Policy, i: int, k: int)
    requires IsFirstMax(xs, p, i, k) && i < |xs|
    requires Eligible(xs, p, i) ==> Score(xs, i) <= Score(xs, k)
    ensures IsFirstMax(xs, p, i + 1, k)
  {
  }

  /** A strict improvement over every earlier eligible candidate becomes the
      first maximum. */
  lemma NewFirstMax(xs: seq<Option<Assessed>>, p: Policy, i: int)
    requires 0 <= i < |xs| && Eligible(xs, p, i)
    requires forall j :: 0 <= j < i && Eligible(xs, p, j) ==> Score(xs, j) < Score(xs, i)
    ensures IsFirstMax(xs, p, i + 1, i)
  {
  }

  /** The scan state after the first `n` candidates: no best and score
      `0.0` while none was eligible, otherwise the first maximum and its
      score. */
  predicate BestSoFar(xs: seq<Option<Assessed>>, p: Policy, n: nat, best: Option<nat>, bestScore: real) {
    && (best.None? ==> bestScore == 0.0 && forall j :: 0 <= j < n ==> !Eligible(xs, p, j))
    && (best.Some? ==> IsFirstMax(xs, p, n, best.value) && bestScore == Score(xs, best.value))
  }

  /** A visit that neither set a confident best nor passed the cut-off
      with a best in hand does not end the scan. */
  lemma NoStop(xs: seq<Option<Assessed>>, p: Policy, i: nat, best: Option<nat>, bestScore: real)
    requires i < |xs|
    requires BestSoFar(xs, p, i + 1, best, bestScore)
    requires best.Some? && p.confident.Some? ==> bestScore < p.confident.value
    requires Considered(xs, p, i) ==> !(p.cutoff.Some? && i > p.cutoff.value && best.Some?)
    ensures !StopsAt(xs, p, i)
    ensures ScanFrom(xs, p, i) == ScanFrom(xs, p, i + 1)
  {
  }

  /** One turn of the scan loop, on candidate `i`. */
  method Visit(xs: seq<Option<Assessed>>, p: Policy, i: nat, best: Option<nat>, bestScore: real)
    returns (best': Option<nat>, bestScore': real, stop: bool)
    requires i < |xs|
    requires BestSoFar(xs, p, i, best, bestScore)
    requires best.Some? && p.confident.Some? ==> bestScore < p.confident.value
    ensures BestSoFar(xs, p, i + 1, best', bestScore')
    ensures stop ==> StopsAt(xs, p, i)
    ensures !stop ==> ScanFrom(xs, p, i) == ScanFrom(xs, p, i + 1)
    ensures !stop ==> (best'.Some? && p.confident.Some? ==> bestScore' < p.confident.value)
  {
    best', bestScore', stop := best, bestScore, false;
    if xs[i].Some? && xs[i].value.score >= p.floor {
      var x := xs[i].value;
      if x.score > bestScore && PriceOk(x) && LinkOk(x) {
        NewFirstMax(xs, p, i);
        best', bestScore' := Some(i), x.score;
        if p.confident.Some? && bestScore' >= p.confident.value {
          assert StopsAt(xs, p, i);
          stop := true;
          return;
        }
      } else if best.Some? {
        KeepFirstMax(xs, p, i, best.value);
      }
      if p.cutoff.Some? && i > p.cutoff.value && best'.Some? {
        assert Eligible(xs, p, best'.value);
        assert StopsAt(xs, p, i);
        stop := true;
        return;
      }
    } else if best.Some? {
      KeepFirstMax(xs, p, i, best.value);
    }
    NoStop(xs, p, i, best', bestScore');
  }

  /** The scan loop: the index of the winner, if any, and how many
      candidates were visited. */
  method Choose(xs: seq<Option<Assessed>>, p: Policy) returns (best: Option<nat>, scanned: nat)
    ensures scanned == Scanned(xs, p)
    ensures best.Some? ==> IsFirstMax(xs, p, scanned, best.value)
    ensures best.None? <==> forall j :: 0 <= j < scanned ==> !Eligible(xs, p, j)
  {
    best := None;
    var bestScore := 0.0;
    var i := 0;
    scanned := |xs|;
    while i < |xs|
      invariant 0 <= i <= |xs|
      invariant Scanned(xs, p) == ScanFrom(xs, p, i)
      invariant BestSoFar(xs, p, i, best, bestScore)
      invariant best.Some? && p.confident.Some? ==> bestScore < p.confident.value
    {
      var stop;
      best, bestScore, stop := Visit(xs, p, i, best, bestScore);
      if stop {
        scanned := i + 1;
        break;
      }
      i := i + 1;
    }
  }

  /** There is one first maximum. */
  lemma FirstMaxUnique(xs: seq<Option<Assessed>>, p: Policy, n: int, a: int, b: int)
    requires IsFirstMax(xs, p, n, a) && IsFirstMax(xs, p, n, b)
    ensures a == b
  {
  }

  /** A scan that ended on the confident score ended on its winner. */
  lemma ConfidentStopWins(xs: seq<Option<Assessed>>, p: Policy, k: int)
    requires p.cutoff.None?
    requires Scanned(xs, p) < |xs|
    requires IsFirstMax(xs, p, Scanned(xs, p), k)
    ensures k == Scanned(xs, p) - 1
    ensures p.confident.Some? && Score(xs, k) >= p.confident.value
  {
    var n := Scanned(xs, p);
    assert StopsAt(xs, p, n - 1);
    assert IsFirstMax(xs, p, n, n - 1) by {
      forall j | 0 <= j < n - 1 && Eligible(xs, p, j)
        ensures Score(xs, j) < Score(xs, n - 1)
      {
        assert !StopsAt(xs, p, j);
      }
    }
    FirstMaxUnique(xs, p, n, k, n - 1);
  }
}
