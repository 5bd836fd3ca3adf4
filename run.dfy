/** The bookkeeping of a run in `gui.py`: choosing a file name that is not
    taken, the progress figures, fetching one URL, the dispatch loop that
    keeps a bounded number of fetches in flight and records their results,
    and handing the results to the report builder. Threads, the executor and
    the clock are not modelled: which fetches finish, and when the user
    cancels or the network is lost, are nondeterministic choices. */
module Run {
  import opened Wrappers
  import opened Text
  import UrlParse
  import Writer
  import Probe

  // ------------------------------------------------------------ save path

  /** `f"{root}_{n}{ext}"` */
  function Candidate(root: string, n: nat, ext: string): string
  {
    root + "_" + Decimal(n) + ext
  }

  lemma CandidateInjective(root: string, ext: string, m: nat, n: nat)
    requires Candidate(root, m, ext) == Candidate(root, n, ext)
    ensures m == n
  {
    var a, b := Candidate(root, m, ext), Candidate(root, n, ext);
    assert |Decimal(m)| == |Decimal(n)|;
    assert Decimal(m) == a[|root| + 1..|a| - |ext|];
    assert Decimal(n) == b[|root| + 1..|b| - |ext|];
    DecimalInjective(m, n);
  }

  /** A path is taken when it or its `.tmp` companion exists. */
  predicate Taken(path: string, existing: set<string>)
  {
    path in existing || path + ".tmp" in existing
  }

  /** The `.tmp` companions of a set of paths. */
  function Companions(paths: set<string>): set<string>
  {
    set p | p in paths :: p + ".tmp"
  }

  /** `_unique_save_path`: the initial path when it is free, otherwise
      `root_n + ext` for the least `n >= 2` that is free. `n` is the number
      the loop stopped at (1 when the initial path was free). */
  method UniqueSavePath(initial: string, existing: set<string>) returns (path: string, n: nat)
    ensures !Taken(path, existing)
    ensures n >= 1
    ensures n == 1 <==> !Taken(initial, existing)
    ensures n == 1 ==> path == initial
    ensures n >= 2 ==> path == Candidate(SplitExt(initial).0, n, SplitExt(initial).1)
    ensures forall k :: 2 <= k < n ==> Taken(Candidate(SplitExt(initial).0, k, SplitExt(initial).1), existing)
  {
    var (root, ext) := SplitExt(initial);
    path := initial;
    n := 1;
    ghost var tried: set<string> := {};
    while Taken(path, existing)
      invariant n >= 1
      invariant n == 1 ==> path == initial
      invariant n >= 2 ==> path == Candidate(root, n, ext) && Taken(initial, existing)
      invariant forall k :: 2 <= k < n ==> Taken(Candidate(root, k, ext), existing)
      invariant TriedBefore(tried, initial, root, ext, n)
      invariant path !in tried
      decreases |existing - tried| + |existing - Companions(tried)|
    {
      TryStep(existing, tried, path);
      TriedGrows(tried, path, initial, root, ext, n);
      tried := tried + {path};
      ghost var prev := path;
      n := n + 1;
      path := Candidate(root, n, ext);
      NextNotTried(tried, initial, root, ext, n);
      forall k | 2 <= k < n
        ensures Taken(Candidate(root, k, ext), existing)
      {
        if k == n - 1 {
          assert Candidate(root, k, ext) == prev;
        }
      }
    }
  }

  /** Every tried path is the initial one or a candidate numbered below `n`. */
  ghost predicate TriedBefore(tried: set<string>, initial: string, root: string, ext: string, n: nat)
  {
    forall p :: p in tried ==> p == initial || exists k :: 2 <= k < n && p == Candidate(root, k, ext)
  }

  lemma TriedGrows(tried: set<string>, path: string, initial: string, root: string, ext: string, n: nat)
    requires n >= 1 && TriedBefore(tried, initial, root, ext, n)
    requires n == 1 ==> path == initial
    requires n >= 2 ==> path == Candidate(root, n, ext)
    ensures TriedBefore(tried + {path}, initial, root, ext, n + 1)
  {
    forall p | p in tried + {path} && p != initial
      ensures exists k :: 2 <= k < n + 1 && p == Candidate(root, k, ext)
    {
      if p in tried {
        var k :| 2 <= k < n && p == Candidate(root, k, ext);
        assert 2 <= k < n + 1;
      } else {
        assert p == path && n >= 2;
        assert 2 <= n < n + 1 && p == Candidate(root, n, ext);
      }
    }
  }

  lemma NextNotTried(tried: set<string>, initial: string, root: string, ext: string, n: nat)
    requires initial == root + ext
    requires TriedBefore(tried, initial, root, ext, n)
    ensures Candidate(root, n, ext) !in tried
  {
    forall p | p in tried
      ensures p != Candidate(root, n, ext)
    {
      if p != initial {
        var k :| 2 <= k < n && p == Candidate(root, k, ext);
        if p == Candidate(root, n, ext) {
          CandidateInjective(root, ext, k, n);
        }
      }
    }
  }

  /** Trying a taken path that was not tried before uses up an existing path
      or an existing companion. */
  lemma TryStep(existing: set<string>, tried: set<string>, path: string)
    requires path !in tried && Taken(path, existing)
    ensures |existing - (tried + {path})| + |existing - Companions(tried + {path})|
          < |existing - tried| + |existing - Companions(tried)|
  {
    CompanionFresh(tried, path);
    assert Companions(tried + {path}) == Companions(tried) + {path + ".tmp"};
    SubsetCard(existing - (tried + {path}), existing - tried, path);
    SubsetCard(existing - Companions(tried + {path}), existing - Companions(tried), path + ".tmp");
  }

  /** Removing an element at most keeps the size; removing a member shrinks it. */
  lemma SubsetCard(a: set<string>, b: set<string>, x: string)
    requires a == b - {x}
    ensures |a| <= |b|
    ensures x in b ==> |a| < |b|
  {
    if x in b {
      assert |b - {x}| == |b| - 1;
    } else {
      assert a == b;
    }
  }

  /** A path not yet tried adds a new companion. */
  lemma CompanionFresh(tried: set<string>, path: string)
    requires path !in tried
    ensures path + ".tmp" !in Companions(tried)
  {
    forall p | p + ".tmp" == path + ".tmp"
      ensures p == path
    {
      assert p == (p + ".tmp")[..|p|];
      assert path == (path + ".tmp")[..|path|];
    }
  }

  // ------------------------------------------------------------ progress

  /** `m:02d` for a number below 100. */
  function Pad2(x: nat): (r: string)
    requires x < 100
    ensures |r| == 2 && IsDigits(r) && DigitsValue(r) == x
  {
    if x < 10 then
      assert DigitsValue("0" + [DigitChar(x)]) == 10 * DigitsValue("0") + x by {
        assert ("0" + [DigitChar(x)])[..1] == "0";
      }
      "0" + [DigitChar(x)]
    else
      DecimalRoundTrip(x);
      Decimal(x)
  }

  const NoEta: string := "--:--:--"

  /** The remaining-time text: `--:--:--` before anything completed,
      otherwise `h:mm:ss` of the estimated remaining seconds (negative
      estimates count as 0). */
  function EtaText(completed: nat, remain: int): string
  {
    if completed == 0 then NoEta
    else
      var r := if remain < 0 then 0 else remain;
      Decimal(r / 3600) + ":" + Pad2(r % 3600 / 60) + ":" + Pad2(r % 60)
  }

  /** Reading an `h:mm:ss` text back as seconds, with minutes and seconds
      below 60. */
  function ParseClock(t: string): Option<(nat, nat, nat)>
  {
    if |t| >= 7 && t[|t| - 3] == ':' && t[|t| - 6] == ':' then
      var h, m, s := t[..|t| - 6], t[|t| - 5..|t| - 3], t[|t| - 2..];
      if IsDigits(h) && IsDigits(m) && IsDigits(s) then Some((DigitsValue(h), DigitsValue(m), DigitsValue(s)))
      else None
    else None
  }

  /** The text shows hours, minutes and seconds that add up to the
      remaining time, minutes and seconds below 60. */
  lemma EtaRoundTrip(completed: nat, remain: int)
    requires completed > 0
    ensures var c := ParseClock(EtaText(completed, remain));
      c.Some? && c.value.1 < 60 && c.value.2 < 60 &&
      c.value.0 * 3600 + c.value.1 * 60 + c.value.2 == (if remain < 0 then 0 else remain)
  {
    var r := if remain < 0 then 0 else remain;
    var hs, ms, ss := Decimal(r / 3600), Pad2(r % 3600 / 60), Pad2(r % 60);
    DecimalRoundTrip(r / 3600);
    ClockParse(hs, ms, ss);
    ClockSplit(r);
  }

  /** `h:mm:ss` reads back as its three fields. */
  lemma ClockParse(hs: string, ms: string, ss: string)
    requires IsDigits(hs) && IsDigits(ms) && IsDigits(ss) && |ms| == 2 && |ss| == 2
    ensures ParseClock(hs + ":" + ms + ":" + ss) == Some((DigitsValue(hs), DigitsValue(ms), DigitsValue(ss)))
  {
    var t := hs + ":" + ms + ":" + ss;
    var n := |hs|;
    assert |t| == n + 6;
    assert t[n] == ':' && t[n + 3] == ':';
    assert t[..n] == hs by {
      assert forall i :: 0 <= i < n ==> t[i] == hs[i];
    }
    assert t[n + 1..n + 3] == ms by {
      assert t[n + 1] == ms[0] && t[n + 2] == ms[1];
    }
    assert t[n + 4..] == ss by {
      assert t[n + 4] == ss[0] && t[n + 5] == ss[1];
    }
  }

  /** Hours, minutes and seconds of `r` add back up to `r`. */
  lemma ClockSplit(r: nat)
    ensures r % 3600 / 60 < 60 && r % 60 < 60
    ensures r / 3600 * 3600 + r % 3600 / 60 * 60 + r % 60 == r
  {
    var h, rest := r / 3600, r % 3600;
    var m, sec := rest / 60, rest % 60;
    assert r == h * 3600 + m * 60 + sec;
    Mod60(r, h * 60 + m, sec);
  }

  /** Taking the remainder by 60 undoes `q * 60 + rem` for `rem` below 60. */
  lemma Mod60(n: nat, q: nat, rem: nat)
    requires rem < 60 && n == q * 60 + rem
    ensures n % 60 == rem
  {
  }

  lemma EtaUnknown(remain: int)
    ensures EtaText(0, remain) == NoEta && ParseClock(NoEta).None?
  {
    assert NoEta[|NoEta| - 3] == ':' && NoEta[|NoEta| - 6] == ':';
    assert !IsDigits(NoEta[..|NoEta| - 6]) by { assert !IsDigit(NoEta[0]); }
  }

  /** The percentage shown: 0 until something completed, 100 once all
      completed, otherwise the integer part of the fraction. */
  function Percent(completed: int, total: int): (pct: int)
    ensures 0 <= pct <= 100
    ensures pct == 100 <==> total > 0 && completed >= total
    ensures total > 0 && 0 < completed < total ==> pct * total <= completed * 100 < (pct + 1) * total
  {
    if total <= 0 || completed <= 0 then 0
    else if completed >= total then 100
    else completed * 100 / total
  }

  /** More completed work never shows a smaller percentage. */
  lemma PercentMonotone(c1: int, c2: int, total: int)
    requires c1 <= c2
    ensures Percent(c1, total) <= Percent(c2, total)
  {
    if total > 0 && 0 < c1 && c2 < total {
      assert c1 * 100 <= c2 * 100;
      DivMonotone(c1 * 100, c2 * 100, total);
    }
  }

  lemma DivMonotone(a: nat, b: nat, d: nat)
    requires a <= b && d > 0
    ensures a / d <= b / d
  {
    var qa, qb := a / d, b / d;
    assert qa * d <= a;
    assert b < (qb + 1) * d;
    assert qa * d < (qb + 1) * d;
  }

  // ------------------------------------------------------------ one URL

  /** What `fetch_one` returns for the `i`-th URL. */
  datatype Record = Record(index: nat, url: string, fname: string, fnameLen: nat,
                           ext: string, sizeMb: Option<real>, status: string)

  /** `fetch_one(i, u)`: `parsed` is what `urlparse` made of `u`; the fetch
      gives up with `ERR` and no size when the run was cancelled before the
      probe, and likewise when the probe raised (`probe == None`). */
  function FetchOne(i: nat, u: string, parsed: Option<UrlParse.UrlParts>, cancelled: bool,
                    probe: Option<Probe.Probed>): (r: Record)
    ensures r.index == i && r.url == u && |r.fname| == r.fnameLen
    ensures r.fname == Writer.UrlFilenameNoExt(parsed) && r.ext == Writer.UrlExtension(parsed)
    ensures r.status == "ERR" && r.sizeMb.None? <==>
      cancelled || probe.None? || (probe.value.status == "ERR" && probe.value.sizeBytes.None?)
    ensures !cancelled && probe.Some? ==>
      r.status == probe.value.status && r.sizeMb == Probe.SizeMb(probe.value.sizeBytes)
  {
    var fname := Writer.UrlFilenameNoExt(parsed);
    var ext := Writer.UrlExtension(parsed);
    if cancelled || probe.None? then Record(i, u, fname, |fname|, ext, None, "ERR")
    else Record(i, u, fname, |fname|, ext, Probe.SizeMb(probe.value.sizeBytes), probe.value.status)
  }

  // ------------------------------------------------------------ dispatch

  /** The number of filled slots. */
  function Filled(results: seq<Option<Record>>): (n: nat)
    ensures n <= |results|
  {
    if results == [] then 0
    else Filled(results[..|results| - 1]) + (if results[|results| - 1].Some? then 1 else 0)
  }

  /** Filling an empty slot adds one. */
  lemma {:induction false} FilledUpdate(results: seq<Option<Record>>, i: nat, r: Record)
    requires i < |results| && results[i].None?
    ensures Filled(results[i := Some(r)]) == Filled(results) + 1
  {
    var s := results[i := Some(r)];
    if i < |results| - 1 {
      assert s[..|s| - 1] == results[..|results| - 1][i := Some(r)];
      FilledUpdate(results[..|results| - 1], i, r);
    } else {
      assert s[..|s| - 1] == results[..|results| - 1];
    }
  }

  /** When only slots below `n` are filled, at most `n` are. */
  lemma {:induction false} FilledAtMost(results: seq<Option<Record>>, n: nat)
    requires forall k :: 0 <= k < |results| && results[k].Some? ==> k < n
    ensures Filled(results) <= n
  {
    if results != [] {
      var init := results[..|results| - 1];
      if results[|results| - 1].Some? {
        FilledAtMost(init, n - 1);
      } else {
        FilledAtMost(init, n);
      }
    }
  }

  /** Taking a subset out of a set splits its size. */
  lemma SplitCard(a: set<nat>, b: set<nat>)
    requires b <= a
    ensures |a - b| + |b| == |a|
  {
    assert (a - b) + b == a;
    assert (a - b) * b == {};
  }

  /** When exactly the first `n` slots are filled, `n` are filled. */
  lemma {:induction false} FilledPrefix(results: seq<Option<Record>>, n: nat)
    requires n <= |results|
    requires forall k :: 0 <= k < |results| ==> (results[k].Some? <==> k < n)
    ensures Filled(results) == n
  {
    if results != [] {
      var init := results[..|results| - 1];
      if n == |results| {
        FilledPrefix(init, n - 1);
      } else {
        FilledPrefix(init, n);
      }
    }
  }

  /** What `urlparse` makes of a URL (`None` when it raised). */
  type Parser = string -> Option<UrlParse.UrlParts>

  /** What the probe of the `i`-th fetch gives (`None` when it raised). */
  type Prober = nat -> Option<Probe.Probed>

  /** The record the `i`-th fetch hands back when it runs to the end. */
  function Fetched(urls: seq<string>, parse: Parser, probe: Prober, i: nat): Record
    requires i < |urls|
  {
    FetchOne(i, urls[i], parse(urls[i]), false, probe(i))
  }

  /** The loop's variables: the result slots, the `completed` counter, the
      position of the index iterator, the fetches in flight and whether the
      cancel flag has been seen. */
  datatype Progress = Progress(results: seq<Option<Record>>, completed: nat, next: nat,
                               inFlight: set<nat>, cancelled: bool)

  /** What holds of the loop's variables while the fetches in `left` have
      finished but are not recorded yet: only started indices are in flight
      or recorded, each filled slot holds what the fetch of its own URL
      returned, no more than `workers` fetches are pending, `completed`
      counts the filled slots and, unless cancelled, every started index is
      recorded or still pending. */
  ghost predicate Bookkept(urls: seq<string>, workers: nat, parse: Parser, probe: Prober,
                           s: Progress, left: set<nat>)
  {
    s.next <= |urls| && (s.next >= workers || s.next == |urls|) &&
    |s.results| == |urls| &&
    |s.inFlight| + |left| <= workers && s.inFlight !! left &&
    (forall k :: k in s.inFlight ==> k < s.next && s.results[k].None?) &&
    (forall k :: k in left ==> k < s.next && s.results[k].None?) &&
    (forall k :: 0 <= k < |urls| && s.results[k].Some? ==>
       k < s.next && s.results[k] == Some(Fetched(urls, parse, probe, k))) &&
    (!s.cancelled ==> forall k :: 0 <= k < s.next ==> s.results[k].Some? || k in s.inFlight || k in left) &&
    s.completed == Filled(s.results)
  }

  /** What is left to do: twice the URLs not started plus the fetches pending. */
  function Pending(urls: seq<string>, s: Progress, left: set<nat>): int
  {
    2 * (|urls| - s.next) + |s.inFlight| + |left|
  }

  /** Taking the finished fetches out of the in-flight set keeps the
      bookkeeping, with them now waiting to be recorded. */
  lemma BookkeptSplit(urls: seq<string>, workers: nat, parse: Parser, probe: Prober,
                      s: Progress, done: set<nat>)
    requires Bookkept(urls, workers, parse, probe, s, {}) && done <= s.inFlight
    ensures Bookkept(urls, workers, parse, probe, s.(inFlight := s.inFlight - done), done)
  {
    SplitCard(s.inFlight, done);
    var s' := s.(inFlight := s.inFlight - done);
    assert forall k :: k in s.inFlight ==> k in s'.inFlight || k in done;
  }

  /** The body of `for fut in done` once the cancel check at its head has
      passed: the finished fetch `i` is stored in its own slot and counted.
      Then, unless the cancel flag has been set meanwhile (`cancelLater`) or
      the network is being waited for (`waiting`), the next URL is started
      when one is left. The stored record is `fetch_one`'s for a run that
      was not cancelled: the cancel flag only ever goes on during a run, so
      a fetch that found it set is never recorded. */
  function Record1(urls: seq<string>, parse: Parser, probe: Prober, s: Progress, i: nat,
                   cancelLater: bool, waiting: bool): (r: Progress)
    requires i < |urls| && |s.results| == |urls|
    ensures r.results == s.results[i := Some(Fetched(urls, parse, probe, i))]
    ensures r.completed == s.completed + 1 && r.cancelled == cancelLater
    ensures s.next <= r.next <= s.next + 1
    ensures r.next > s.next <==> !cancelLater && !waiting && s.next < |urls|
    ensures forall k :: k in r.inFlight <==> k in s.inFlight || s.next <= k < r.next
  {
    var starts := !cancelLater && !waiting && s.next < |urls|;
    Progress(s.results[i := Some(Fetched(urls, parse, probe, i))], s.completed + 1,
             if starts then s.next + 1 else s.next,
             if starts then s.inFlight + {s.next} else s.inFlight, cancelLater)
  }

  /** Recording one pending fetch keeps the bookkeeping and makes progress. */
  lemma Record1Bookkept(urls: seq<string>, workers: nat, parse: Parser, probe: Prober,
                        s: Progress, left: set<nat>, i: nat, cancelLater: bool, waiting: bool)
    requires !s.cancelled && i in left && Bookkept(urls, workers, parse, probe, s, left)
    ensures Bookkept(urls, workers, parse, probe, Record1(urls, parse, probe, s, i, cancelLater, waiting), left - {i})
    ensures Pending(urls, Record1(urls, parse, probe, s, i, cancelLater, waiting), left - {i}) < Pending(urls, s, left)
  {
    RecordKept(urls, workers, parse, probe, s, left, i, Record1(urls, parse, probe, s, i, cancelLater, waiting));
  }

  /** `Record1Bookkept` for any state `s'` that `Record1`'s contract allows. */
  lemma RecordKept(urls: seq<string>, workers: nat, parse: Parser, probe: Prober,
                   s: Progress, left: set<nat>, i: nat, s': Progress)
    requires !s.cancelled && i in left && Bookkept(urls, workers, parse, probe, s, left)
    requires s'.results == s.results[i := Some(Fetched(urls, parse, probe, i))]
    requires s'.completed == s.completed + 1
    requires s.next <= s'.next <= s.next + 1 && (s'.next > s.next ==> s.next < |urls|)
    requires forall k :: k in s'.inFlight <==> k in s.inFlight || s.next <= k < s'.next
    ensures Bookkept(urls, workers, parse, probe, s', left - {i})
    ensures Pending(urls, s', left - {i}) < Pending(urls, s, left)
  {
    FilledUpdate(s.results, i, Fetched(urls, parse, probe, i));
    RecordCounts(s, left, i, s');
    RecordResults(urls, parse, probe, s, i, s');
    if !s'.cancelled {
      RecordCovers(s, left, i, s');
    }
  }

  /** Every filled slot still holds its own fetch. */
  lemma RecordResults(urls: seq<string>, parse: Parser, probe: Prober, s: Progress, i: nat, s': Progress)
    requires i < s.next <= s'.next && s.next <= |urls| == |s.results|
    requires forall k :: 0 <= k < |urls| && s.results[k].Some? ==>
      k < s.next && s.results[k] == Some(Fetched(urls, parse, probe, k))
    requires s'.results == s.results[i := Some(Fetched(urls, parse, probe, i))]
    ensures forall k :: 0 <= k < |urls| && s'.results[k].Some? ==>
      k < s'.next && s'.results[k] == Some(Fetched(urls, parse, probe, k))
  {
  }

  /** Every index started is filled, in flight or waiting to be recorded. */
  lemma RecordCovers(s: Progress, left: set<nat>, i: nat, s': Progress)
    requires i in left && i < |s.results| && s.next <= s'.next <= s.next + 1 && s'.next <= |s.results|
    requires forall k :: 0 <= k < s.next ==> s.results[k].Some? || k in s.inFlight || k in left
    requires |s'.results| == |s.results| && s'.results == s.results[i := s'.results[i]] && s'.results[i].Some?
    requires forall k :: k in s'.inFlight <==> k in s.inFlight || s.next <= k < s'.next
    ensures forall k :: 0 <= k < s'.next ==> s'.results[k].Some? || k in s'.inFlight || k in left - {i}
  {
  }

  /** Recording `i` takes it out of `left` and starts at most `s.next`. */
  lemma RecordCounts(s: Progress, left: set<nat>, i: nat, s': Progress)
    requires i in left && s.inFlight !! left
    requires forall k :: k in s.inFlight ==> k < s.next
    requires forall k :: k in left ==> k < s.next
    requires s.next <= s'.next <= s.next + 1
    requires forall k :: k in s'.inFlight <==> k in s.inFlight || s.next <= k < s'.next
    ensures |s'.inFlight| == |s.inFlight| + (s'.next - s.next) && |left - {i}| == |left| - 1
    ensures s'.inFlight !! left - {i}
  {
    if s'.next > s.next {
      assert s.next !in s.inFlight && s'.inFlight == s.inFlight + {s.next};
    } else {
      assert s'.inFlight == s.inFlight;
    }
  }

  /** The first `min(workers, total)` indices are started. */
  method Seed(total: nat, workers: nat) returns (next: nat, inFlight: set<nat>)
    ensures next <= total && next <= workers && (next >= workers || next == total)
    ensures forall k :: k in inFlight <==> 0 <= k < next
    ensures |inFlight| == next
  {
    next := 0;
    inFlight := {};
    while next < workers && next < total
      invariant next <= total && next <= workers
      invariant forall k :: k in inFlight <==> 0 <= k < next
      invariant |inFlight| == next
    {
      inFlight := inFlight + {next};
      next := next + 1;
    }
  }

  /** `for fut in done`: the finished fetches are recorded one by one until
      the cancel flag is seen. Whether it is seen, and whether the network
      is being waited for after each record, is chosen nondeterministically. */
  method HandleDone(urls: seq<string>, workers: nat, parse: Parser, probe: Prober,
                    s0: Progress, done: set<nat>) returns (s: Progress)
    requires !s0.cancelled && done != {} && Bookkept(urls, workers, parse, probe, s0, done)
    ensures Bookkept(urls, workers, parse, probe, s, {})
    ensures s.cancelled || Pending(urls, s, {}) < Pending(urls, s0, done)
  {
    s := s0;
    var left := done;
    while left != {}
      invariant left <= done
      invariant Bookkept(urls, workers, parse, probe, s, left)
      invariant Pending(urls, s, left) <= Pending(urls, s0, done)
      invariant left != done ==> Pending(urls, s, left) < Pending(urls, s0, done)
      invariant left == done ==> !s.cancelled
      decreases |left|
    {
      var i :| i in left;
      var cancelNow: bool := *;
      if s.cancelled || cancelNow {
        s := s.(cancelled := true);
        return;
      }
      var cancelLater: bool := *;
      var waiting: bool := *;
      Record1Bookkept(urls, workers, parse, probe, s, left, i, cancelLater, waiting);
      s := Record1(urls, parse, probe, s, i, cancelLater, waiting);
      left := left - {i};
    }
  }

  /** The dispatch loop of `_run_worker`. `workers` fetches are started
      (fewer when there are fewer URLs); whenever fetches finish, their
      results are stored at their index and, unless the run is cancelled or
      the network is being waited for, the next URL is started. Which fetches
      finish in a round, and when the cancel and wait flags change, is chosen
      nondeterministically. `parse` and `probe` stand for `urlparse` and
      `status_and_size_mb` of each URL, so the `k`-th slot, when filled,
      holds `Fetched(urls, parse, probe, k)`. `submitted` is how many URLs
      were started (always the first ones, in order). */
  method Dispatch(urls: seq<string>, workers: nat, parse: Parser, probe: Prober)
    returns (results: seq<Option<Record>>, completed: nat, submitted: nat, cancelled: bool)
    requires workers >= 1
    ensures |results| == |urls|
    ensures submitted <= |urls|
    ensures submitted >= workers || submitted == |urls|
    ensures completed == Filled(results) <= submitted
    ensures forall k :: 0 <= k < |urls| && results[k].Some? ==>
      k < submitted && results[k] == Some(Fetched(urls, parse, probe, k))
    ensures !cancelled ==> completed == submitted
  {
    var next, inFlight := Seed(|urls|, workers);
    var s := Progress(seq(|urls|, _ => None), 0, next, inFlight, false);
    BookkeptStart(urls, workers, parse, probe, s);
    while s.inFlight != {} && !s.cancelled
      invariant Bookkept(urls, workers, parse, probe, s, {})
      decreases if s.cancelled then 0 else 1, Pending(urls, s, {})
    {
      var x :| x in s.inFlight;
      var done :| x in done && done <= s.inFlight;
      BookkeptSplit(urls, workers, parse, probe, s, done);
      s := HandleDone(urls, workers, parse, probe, s.(inFlight := s.inFlight - done), done);
    }
    BookkeptEnd(urls, workers, parse, probe, s);
    results, completed, submitted, cancelled := s.results, s.completed, s.next, s.cancelled;
  }

  /** The seeded state is bookkept: nothing recorded, the first `next`
      indices in flight. */
  lemma BookkeptStart(urls: seq<string>, workers: nat, parse: Parser, probe: Prober, s: Progress)
    requires s.results == seq(|urls|, _ => None) && s.completed == 0 && !s.cancelled
    requires s.next <= |urls| && s.next <= workers && (s.next >= workers || s.next == |urls|)
    requires (forall k :: k in s.inFlight <==> 0 <= k < s.next) && |s.inFlight| == s.next
    ensures Bookkept(urls, workers, parse, probe, s, {})
  {
    assert forall k :: 0 <= k < |urls| ==> s.results[k].None?;
    FilledPrefix(s.results, 0);
  }

  /** When the loop ends, `completed` counts at most the started URLs, and
      all of them unless the run was cancelled. */
  lemma BookkeptEnd(urls: seq<string>, workers: nat, parse: Parser, probe: Prober, s: Progress)
    requires Bookkept(urls, workers, parse, probe, s, {}) && (s.inFlight == {} || s.cancelled)
    ensures s.completed <= s.next
    ensures !s.cancelled ==> s.completed == s.next
  {
    if !s.cancelled {
      FilledPrefix(s.results, s.next);
    } else {
      FilledAtMost(s.results, s.next);
    }
  }

  /** As written, a run can end uncancelled with URLs never started: when
      the last fetch in flight is recorded while the network is being waited
      for, nothing new is started, the in-flight set is empty, and the
      dispatch loop stops. */
  lemma WaitingEndsRun(urls: seq<string>, workers: nat, parse: Parser, probe: Prober,
                       s: Progress, i: nat)
    requires Bookkept(urls, workers, parse, probe, s, {i}) && s.inFlight == {} && !s.cancelled
    requires s.next < |urls|
    ensures var r := Record1(urls, parse, probe, s, i, false, true);
      Bookkept(urls, workers, parse, probe, r, {}) && r.inFlight == {} && !r.cancelled && r.next < |urls|
  {
    Record1Bookkept(urls, workers, parse, probe, s, {i}, i, false, true);
    assert {i} - {i} == {};
  }

  /** One worker and two URLs: the first fetch finishes and is recorded
      while the network is being waited for; the loop then stops, not
      cancelled, with the second slot empty and the second URL never
      started. */
  lemma TwoUrlsOneWorker(parse: Parser, probe: Prober)
    ensures var s := Progress([None, None], 0, 1, {}, false);
      var r := Record1(["a", "b"], parse, probe, s, 0, false, true);
      Bookkept(["a", "b"], 1, parse, probe, s, {0}) &&
      r.inFlight == {} && !r.cancelled && r.next == 1 && r.results[1] == None
  {
    var s := Progress([None, None], 0, 1, {}, false);
    assert s.results[..1] == [None] && s.results[..1][..0] == [];
    assert Filled(s.results) == 0;
    WaitingEndsRun(["a", "b"], 1, parse, probe, s, 0);
  }

  /** The pool is full: the run is cancelled, every URL has been started, or
      `workers` fetches are in flight or waiting to be recorded. */
  ghost predicate ToppedUp(urls: seq<string>, workers: nat, s: Progress, left: set<nat>)
  {
    s.cancelled || s.next == |urls| || |s.inFlight| + |left| == workers
  }

  /** With the wait only postponing the next start rather than skipping it
      (`waiting` false once the network is back), recording a fetch keeps the
      pool full, so the dispatch loop can stop uncancelled only after every
      URL was started. */
  lemma TopUpKept(urls: seq<string>, workers: nat, parse: Parser, probe: Prober,
                  s: Progress, left: set<nat>, i: nat, cancelLater: bool)
    requires workers >= 1
    requires !s.cancelled && i in left && Bookkept(urls, workers, parse, probe, s, left)
    requires ToppedUp(urls, workers, s, left)
    ensures var r := Record1(urls, parse, probe, s, i, cancelLater, false);
      ToppedUp(urls, workers, r, left - {i}) &&
      (r.inFlight == {} && left - {i} == {} ==> r.cancelled || r.next == |urls|)
  {
    var r := Record1(urls, parse, probe, s, i, cancelLater, false);
    assert |left - {i}| == |left| - 1;
    if r.next > s.next {
      assert s.next !in s.inFlight && r.inFlight == s.inFlight + {s.next};
      assert |r.inFlight| == |s.inFlight| + 1;
    }
  }

  // ------------------------------------------------------------ results to rows

  /** The rows handed to the builder: the filled slots in index order. */
  function RowsOf(results: seq<Option<Record>>): (rows: seq<Writer.Row>)
    ensures |rows| == Filled(results)
  {
    if results == [] then []
    else
      RowsOf(results[..|results| - 1]) +
        match results[|results| - 1]
        case None => []
        case Some(r) => [Writer.Row(r.url, r.fname, r.fnameLen, r.ext, r.sizeMb, r.status)]
  }

  /** The number of filled slots whose status is `OK`. */
  function OkCount(results: seq<Option<Record>>): (n: nat)
    ensures n <= Filled(results)
  {
    if results == [] then 0
    else
      OkCount(results[..|results| - 1]) +
        (if results[|results| - 1].Some? && results[|results| - 1].value.status == "OK" then 1 else 0)
  }

  /** The rows keep the order of the slots: a filled slot's row comes
      after the rows of all earlier filled slots. */
  lemma {:induction false} RowsOfOrder(results: seq<Option<Record>>, i: nat)
    requires i < |results| && results[i].Some?
    ensures Filled(results[..i]) < |RowsOf(results)|
    ensures RowsOf(results)[Filled(results[..i])].url == results[i].value.url
    ensures RowsOf(results)[Filled(results[..i])].status == results[i].value.status
  {
    var init := results[..|results| - 1];
    if i < |results| - 1 {
      assert init[..i] == results[..i];
      RowsOfOrder(init, i);
    } else {
      assert results[..i] == init;
    }
  }

  /** Handing the results to the builder: one `add_row` per filled slot in
      index order; `processed` counts the filled slots and `okCount` those
      whose status is `OK`. */
  method Collect(results: seq<Option<Record>>, builder: Writer.XlsxBuilder)
    returns (processed: nat, okCount: nat)
    modifies builder
    ensures builder.rows == old(builder.rows) + RowsOf(results)
    ensures builder.hyperlinks == old(builder.hyperlinks)
    ensures processed == Filled(results) && okCount == OkCount(results)
  {
    for i := 0 to |results|
      invariant builder.rows == old(builder.rows) + RowsOf(results[..i])
      invariant builder.hyperlinks == old(builder.hyperlinks)
    {
      assert results[..i + 1][..i] == results[..i];
      match results[i] {
        case None =>
        case Some(r) =>
          builder.AddRow(Some(r.url), Some(r.fname), Some(r.fnameLen), Some(r.ext), r.sizeMb, Some(r.status));
      }
    }
    assert results[..|results|] == results;
    processed, okCount := CountResults(results);
  }

  /** The counts kept while collecting: filled slots, and among them those
      whose status is `OK`. */
  method CountResults(results: seq<Option<Record>>) returns (processed: nat, okCount: nat)
    ensures processed == Filled(results) && okCount == OkCount(results)
  {
    processed := 0;
    okCount := 0;
    for i := 0 to |results|
      invariant processed == Filled(results[..i]) && okCount == OkCount(results[..i])
    {
      assert results[..i + 1][..i] == results[..i];
      if results[i].Some? {
        processed := processed + 1;
        if results[i].value.status == "OK" {
          okCount := okCount + 1;
        }
      }
    }
    assert results[..|results|] == results;
  }
}
