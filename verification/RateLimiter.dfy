/** The per-host fixed-window request limiter of the web handlers (web.go). */
module RateLimiter {

  datatype Window = Window(start: int, count: nat)

  datatype Request = Request(host: string, at: int)

  /** The window a request at `now` is counted in, before it is counted: the open one, or a fresh one. */
  function OpenWindow(windows: map<string, Window>, host: string, now: int, duration: int): Window {
    if host in windows && now - windows[host].start < duration then windows[host] else Window(now, 0)
  }

  function Counted(windows: map<string, Window>, host: string, now: int, duration: int): map<string, Window> {
    var w := OpenWindow(windows, host, now, duration);
    windows[host := w.(count := w.count + 1)]
  }

  class RequestLimiter {
    var windows: map<string, Window>
    const limit: int
    const duration: int

    constructor (limit: int, duration: int)
      ensures windows == map[] && this.limit == limit && this.duration == duration
    {
      windows := map[];
      this.limit, this.duration := limit, duration;
    }

    method Allow(host: string, now: int) returns (ok: bool)
      modifies this`windows
      ensures windows == Counted(old(windows), host, now, duration)
      ensures ok <==> windows[host].count <= limit
    {
      var window := Window(now, 0);
      if host in windows && now - windows[host].start < duration {
        window := windows[host];
      }
      window := window.(count := window.count + 1);
      windows := windows[host := window];
      return window.count <= limit;
    }
  }

  // ----- histories: what the limiter has done after a sequence of requests

  ghost predicate InOrder(run: seq<Request>) {
    forall i, j :: 0 <= i < j < |run| ==> run[i].at <= run[j].at
  }

  ghost function Windows(run: seq<Request>, duration: int): map<string, Window> {
    if run == [] then map[]
    else
      var r := run[|run| - 1];
      Counted(Windows(run[..|run| - 1], duration), r.host, r.at, duration)
  }

  /** The verdict on the last request of a history. */
  ghost predicate Admitted(run: seq<Request>, limit: int, duration: int)
    requires run != []
  {
    Windows(run, duration)[run[|run| - 1].host].count <= limit
  }

  /** How many requests of `host` with from <= at < until were admitted in `run`. */
  ghost function AdmittedIn(run: seq<Request>, host: string, from: int, until: int, limit: int, duration: int): nat {
    if run == [] then 0
    else
      var r := run[|run| - 1];
      AdmittedIn(run[..|run| - 1], host, from, until, limit, duration)
      + if r.host == host && from <= r.at < until && Admitted(run, limit, duration) then 1 else 0
  }

  ghost function OfHost(run: seq<Request>, host: string): seq<Request> {
    if run == [] then []
    else
      OfHost(run[..|run| - 1], host) + if run[|run| - 1].host == host then [run[|run| - 1]] else []
  }

  /** One more request, spelled out. */
  lemma Snoc(run: seq<Request>, r: Request, host: string, from: int, until: int, limit: int, duration: int)
    ensures (run + [r])[|run + [r]| - 1] == r && (run + [r])[..|run + [r]| - 1] == run
    ensures Windows(run + [r], duration) == Counted(Windows(run, duration), r.host, r.at, duration)
    ensures AdmittedIn(run + [r], host, from, until, limit, duration)
            == AdmittedIn(run, host, from, until, limit, duration)
               + if r.host == host && from <= r.at < until
                    && OpenWindow(Windows(run, duration), r.host, r.at, duration).count + 1 <= limit then 1 else 0
  {
    assert (run + [r])[..|run + [r]| - 1] == run;
  }

  /** Requests of other hosts never change a host's window, hence never its verdicts. */
  lemma {:induction false} HostsAreIndependent(run: seq<Request>, host: string, limit: int, duration: int)
    ensures host in Windows(run, duration) <==> host in Windows(OfHost(run, host), duration)
    ensures host in Windows(run, duration) ==>
              Windows(run, duration)[host] == Windows(OfHost(run, host), duration)[host]
    ensures run != [] && run[|run| - 1].host == host ==>
              OfHost(run, host) != []
              && (Admitted(run, limit, duration) <==> Admitted(OfHost(run, host), limit, duration))
  {
    if run == [] {
    } else {
      var before := run[..|run| - 1];
      HostsAreIndependent(before, host, limit, duration);
      assert OfHost(before, host) + [] == OfHost(before, host);
      if run[|run| - 1].host == host {
        assert OfHost(run, host) == OfHost(before, host) + [run[|run| - 1]];
        Snoc(OfHost(before, host), run[|run| - 1], host, 0, 0, limit, duration);
      }
    }
  }

  /** How many windows of `host` were openings at or after `from`. */
  ghost function Opened(run: seq<Request>, host: string, from: int, duration: int): nat {
    if run == [] then 0
    else
      var r := run[|run| - 1];
      var before := run[..|run| - 1];
      Opened(before, host, from, duration)
      + if r.host == host && from <= r.at && OpenWindow(Windows(before, duration), host, r.at, duration).count == 0
        then 1 else 0
  }

  ghost function Capped(count: nat, limit: nat): nat { if count <= limit then count else limit }

  lemma MulMonotone(a: int, b: int, c: int)
    requires a <= b && 0 <= c
    ensures a * c <= b * c
  {
  }

  lemma MulStep(a: int, b: int)
    ensures a * b == (a - 1) * b + b
  {
  }

  /** What one window can still have admitted at or after `from`; a window openings earlier spent one admission then. */
  ghost predicate Spaced(w: Window, openings: nat, admitted: nat, from: int, limit: nat, duration: int) {
    && w.count >= 1
    && if w.start < from then openings == 0 && admitted <= Capped(w.count, limit) - 1
       else openings >= 1
            && w.start >= from + (openings - 1) * duration
            && admitted <= limit - 1 + (openings - 1) * limit + Capped(w.count, limit)
  }

  lemma {:induction false} SpacedAfter(
    run: seq<Request>, host: string, from: int, until: int, limit: nat, duration: int)
    requires InOrder(run) && limit >= 1 && duration >= 1
    requires run != [] ==> run[|run| - 1].at < until
    ensures var w := Windows(run, duration);
            var openings := Opened(run, host, from, duration);
            var admitted := AdmittedIn(run, host, from, until, limit, duration);
            && (host !in w ==> openings == 0 && admitted == 0)
            && (host in w ==> Spaced(w[host], openings, admitted, from, limit, duration))
            && (host in w ==> run != [] && w[host].start <= run[|run| - 1].at)
            && (run != [] && run[|run| - 1].at < from ==> openings == 0 && admitted == 0)
  {
    if run == [] {
    } else {
      var before, r := run[..|run| - 1], run[|run| - 1];
      SpacedAfter(before, host, from, until, limit, duration);
      var w := Windows(before, duration);
      if r.host == host && host in w && OpenWindow(w, host, r.at, duration).count == 0 {
        var openings := Opened(before, host, from, duration);
        MulStep(openings, duration);
        MulStep(openings, limit);
        assert w[host].start + duration <= r.at;
      }
    }
  }

  lemma {:induction false} OnlyBefore(
    run: seq<Request>, n: nat, host: string, from: int, until: int, limit: int, duration: int)
    requires n <= |run| && forall i :: n <= i < |run| ==> until <= run[i].at
    ensures AdmittedIn(run, host, from, until, limit, duration)
         == AdmittedIn(run[..n], host, from, until, limit, duration)
  {
    if n < |run| {
      OnlyBefore(run[..|run| - 1], n, host, from, until, limit, duration);
      assert run[..|run| - 1][..n] == run[..n];
    } else {
      assert run[..n] == run;
    }
  }

  lemma {:induction false} NothingWithoutLimit(
    run: seq<Request>, host: string, from: int, until: int, limit: int, duration: int)
    requires limit <= 0
    ensures AdmittedIn(run, host, from, until, limit, duration) == 0
  {
    if run == [] {
    } else {
      NothingWithoutLimit(run[..|run| - 1], host, from, until, limit, duration);
    }
  }

  lemma WindowsFit(start: int, from: int, openings: nat, k: nat, duration: int)
    requires openings >= 1 && duration >= 1
    requires from + (openings - 1) * duration <= start < from + k * duration
    ensures openings <= k
  {
    if k <= openings - 1 {
      MulMonotone(k, openings - 1, duration);
    }
  }

  lemma AdmissionsFit(openings: nat, k: nat, limit: nat)
    requires openings <= k
    ensures openings >= 1 ==> limit - 1 + (openings - 1) * limit + limit <= (k + 1) * limit - 1
    ensures limit - 1 <= (k + 1) * limit - 1
  {
    MulMonotone(openings, k, limit);
    MulMonotone(0, k, limit);
    MulStep(openings, limit);
    MulStep(k + 1, limit);
  }

  /** The requests before `until`, and what they say about the openings. */
  lemma BoundBefore(run: seq<Request>, host: string, from: int, k: nat, limit: nat, duration: int)
    requires InOrder(run) && limit >= 1 && duration >= 1
    requires run != [] ==> run[|run| - 1].at < from + k * duration
    ensures AdmittedIn(run, host, from, from + k * duration, limit, duration) <= (k + 1) * limit - 1
  {
    SpacedAfter(run, host, from, from + k * duration, limit, duration);
    var openings := Opened(run, host, from, duration);
    if openings >= 1 {
      WindowsFit(Windows(run, duration)[host].start, from, openings, k, duration);
    }
    AdmissionsFit(openings, k, limit);
  }

  /**
   Any half-open interval of k window lengths admits at most (k+1)*limit - 1 requests of one host, over any history.
   */
  lemma SlidingBound(run: seq<Request>, host: string, from: int, k: nat, limit: int, duration: int)
    requires InOrder(run) && duration >= 1
    ensures limit <= 0 ==> AdmittedIn(run, host, from, from + k * duration, limit, duration) == 0
    ensures limit >= 1 ==> AdmittedIn(run, host, from, from + k * duration, limit, duration) <= (k + 1) * limit - 1
  {
    var until := from + k * duration;
    if limit <= 0 {
      NothingWithoutLimit(run, host, from, until, limit, duration);
      return;
    }
    var n := |run|;
    while n > 0 && run[n - 1].at >= until
      invariant 0 <= n <= |run| && forall i :: n <= i < |run| ==> until <= run[i].at
    {
      n := n - 1;
    }
    OnlyBefore(run, n, host, from, until, limit, duration);
    BoundBefore(run[..n], host, from, k, limit, duration);
  }

  // ----- the bound is attained

  /** `n` requests of one host at the same instant. */
  ghost function Burst(host: string, at: int, n: nat): seq<Request> {
    seq(n, _ => Request(host, at))
  }

  /** k times `duration`, added up: when the k-th window of the worst history opens. */
  ghost function Multiple(k: nat, duration: int): int {
    if k == 0 then 0 else Multiple(k - 1, duration) + duration
  }

  /** One request, the rest of its window just before it closes, then a full burst per window. */
  ghost function Worst(host: string, k: nat, limit: nat, duration: int): seq<Request>
    requires limit >= 1
  {
    if k == 0 then [Request(host, 0)] + Burst(host, duration - 1, limit - 1)
    else Worst(host, k - 1, limit, duration) + Burst(host, Multiple(k, duration), limit)
  }

  lemma OneMoreOfBurst(
    run: seq<Request>, host: string, at: int, n: nat, from: int, until: int, limit: nat, duration: int)
    requires n >= 1
    ensures var part, all := run + Burst(host, at, n - 1), run + Burst(host, at, n);
            && Windows(all, duration) == Counted(Windows(part, duration), host, at, duration)
            && AdmittedIn(all, host, from, until, limit, duration)
               == AdmittedIn(part, host, from, until, limit, duration)
                  + if from <= at < until && OpenWindow(Windows(part, duration), host, at, duration).count + 1 <= limit
                    then 1 else 0
  {
    var part := run + Burst(host, at, n - 1);
    assert run + Burst(host, at, n) == part + [Request(host, at)];
    Snoc(part, Request(host, at), host, from, until, limit, duration);
  }

  /** A burst that stays inside the window it meets, or opens one, is admitted up to the limit. */
  lemma {:induction false} BurstAdmitted(
    run: seq<Request>, host: string, at: int, n: nat, from: int, until: int, limit: nat, duration: int)
    requires from <= at < until && duration >= 1
    requires OpenWindow(Windows(run, duration), host, at, duration).count + n <= limit
    ensures var all := run + Burst(host, at, n);
            var w := OpenWindow(Windows(run, duration), host, at, duration);
            && AdmittedIn(all, host, from, until, limit, duration)
               == AdmittedIn(run, host, from, until, limit, duration) + n
            && (n >= 1 ==>
                  host in Windows(all, duration) && Windows(all, duration)[host] == Window(w.start, w.count + n))
  {
    if n == 0 {
      assert run + Burst(host, at, n) == run;
    } else {
      BurstAdmitted(run, host, at, n - 1, from, until, limit, duration);
      if n == 1 {
        assert run + Burst(host, at, 0) == run;
      }
      OneMoreOfBurst(run, host, at, n, from, until, limit, duration);
    }
  }

  lemma {:induction false} WorstInOrder(host: string, k: nat, limit: nat, duration: int)
    requires limit >= 1 && duration >= 1
    ensures var run := Worst(host, k, limit, duration);
            && InOrder(run) && |run| >= 1
            && run[|run| - 1].at <= (if k == 0 then duration - 1 else Multiple(k, duration))
            && Multiple(k, duration) >= 0
  {
    if k > 0 {
      WorstInOrder(host, k - 1, limit, duration);
    }
  }

  /** A full burst once the window has run out opens the next one and is admitted whole. */
  lemma NextBurst(run: seq<Request>, host: string, at: int, from: int, until: int, limit: nat, duration: int)
    requires limit >= 1 && duration >= 1 && from <= at < until
    requires host in Windows(run, duration) && Windows(run, duration)[host].start + duration == at
    ensures var all := run + Burst(host, at, limit);
            && AdmittedIn(all, host, from, until, limit, duration)
               == AdmittedIn(run, host, from, until, limit, duration) + limit
            && host in Windows(all, duration) && Windows(all, duration)[host].start == at
  {
    assert OpenWindow(Windows(run, duration), host, at, duration) == Window(at, 0);
    BurstAdmitted(run, host, at, limit, from, until, limit, duration);
  }

  /** The first window of the worst history: all of it but one request falls after `duration - 1`. */
  lemma FirstBurst(host: string, until: int, limit: nat, duration: int)
    requires limit >= 1 && duration >= 2 && until >= duration
    ensures var run := Worst(host, 0, limit, duration);
            && host in Windows(run, duration) && Windows(run, duration)[host].start == 0
            && AdmittedIn(run, host, duration - 1, until, limit, duration) == limit - 1
  {
    var first := [Request(host, 0)];
    assert first == [] + first;
    Snoc([], Request(host, 0), host, duration - 1, until, limit, duration);
    assert OpenWindow(Windows(first, duration), host, duration - 1, duration) == Window(0, 1);
    BurstAdmitted(first, host, duration - 1, limit - 1, duration - 1, until, limit, duration);
    if limit == 1 {
      assert Worst(host, 0, limit, duration) == first;
    }
  }

  lemma WorstGrows(host: string, k: nat, until: int, limit: nat, duration: int)
    requires limit >= 1 && duration >= 2 && until > Multiple(k, duration) && k >= 1
    requires var run := Worst(host, k - 1, limit, duration);
             host in Windows(run, duration) && Windows(run, duration)[host].start == Multiple(k - 1, duration) >= 0
    ensures var run := Worst(host, k, limit, duration);
            && host in Windows(run, duration) && Windows(run, duration)[host].start == Multiple(k, duration)
            && AdmittedIn(run, host, duration - 1, until, limit, duration)
               == AdmittedIn(Worst(host, k - 1, limit, duration), host, duration - 1, until, limit, duration) + limit
  {
    NextBurst(Worst(host, k - 1, limit, duration), host, Multiple(k, duration), duration - 1, until, limit, duration);
  }

  lemma {:induction false} WorstAdmits(host: string, k: nat, until: int, limit: nat, duration: int)
    requires limit >= 1 && duration >= 2 && until > Multiple(k, duration) && until >= duration
    ensures var run := Worst(host, k, limit, duration);
            && host in Windows(run, duration) && Windows(run, duration)[host].start == Multiple(k, duration) >= 0
            && AdmittedIn(run, host, duration - 1, until, limit, duration) == limit - 1 + Multiple(k, limit)
  {
    if k == 0 {
      FirstBurst(host, until, limit, duration);
    } else {
      WorstAdmits(host, k - 1, until, limit, duration);
      WorstGrows(host, k, until, limit, duration);
    }
  }

  lemma {:induction false} MultipleIsAProduct(k: nat, duration: int)
    ensures Multiple(k, duration) == k * duration
  {
    if k > 0 {
      MultipleIsAProduct(k - 1, duration);
      MulStep(k, duration);
    }
  }

  /** For every limit, every k >= 1 and every window longer than one tick, the worst history attains the bound. */
  lemma SlidingBoundIsTight(host: string, k: nat, limit: nat, duration: int)
    requires limit >= 1 && duration >= 2 && k >= 1
    ensures var run, from := Worst(host, k, limit, duration), duration - 1;
            InOrder(run) && AdmittedIn(run, host, from, from + k * duration, limit, duration) == (k + 1) * limit - 1
  {
    MulMonotone(1, k, duration);
    MultipleIsAProduct(k, duration);
    MultipleIsAProduct(k, limit);
    MulStep(k + 1, limit);
    WorstInOrder(host, k, limit, duration);
    WorstAdmits(host, k, duration - 1 + k * duration, limit, duration);
  }
}
