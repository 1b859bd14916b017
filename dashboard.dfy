/** GET /api/dashboard (main/routes/dashboard.route.js): collection sizes,
    inquiries per calendar month, inquiries per status text, and the
    average rating of the inquiries whose status reads as the number 2.
    The month of a creation time (Date.getMonth in the local time zone) is
    the parameter `monthOf`. */
module Dashboard {
  import opened Wrappers
  import opened JsText
  import opened Records
  import opened Middleware

  type MonthIndex = m: int | 0 <= m < 12

  const UnknownStatus := "unknown"
  const FailureMessage := "Failed to fetch dashboard data"

  datatype Stats = Stats(
    usersCount: nat,
    inquiriesCount: nat,
    sectionsCount: nat,
    monthlyCounts: seq<nat>,
    statusCounts: map<string, nat>,
    avgRating: real)

  // ---------------------------------------------------------------------
  // Monthly histogram
  // ---------------------------------------------------------------------

  /** How many of the records were created in month m. */
  function CountInMonth(s: seq<Inquiry>, monthOf: int -> MonthIndex, m: MonthIndex): (n: nat)
    ensures n <= |s|
  {
    if s == [] then 0
    else CountInMonth(s[..|s| - 1], monthOf, m) + (if monthOf(s[|s| - 1].createdAt) == m then 1 else 0)
  }

  function Sum(xs: seq<nat>): nat {
    if xs == [] then 0 else Sum(xs[..|xs| - 1]) + xs[|xs| - 1]
  }

  /** The twelve month counts. */
  function MonthHistogram(s: seq<Inquiry>, monthOf: int -> MonthIndex): (h: seq<nat>)
    ensures |h| == 12
    ensures forall m: MonthIndex :: h[m] == CountInMonth(s, monthOf, m)
  {
    seq(12, (m: int) requires 0 <= m < 12 => CountInMonth(s, monthOf, m))
  }

  /** Adding 1 at one index adds 1 to the sum. */
  lemma {:induction false} SumBump(xs: seq<nat>, k: nat)
    requires k < |xs|
    ensures Sum(xs[k := xs[k] + 1]) == Sum(xs) + 1
    decreases |xs|
  {
    var ys := xs[k := xs[k] + 1];
    if k < |xs| - 1 {
      SumBump(xs[..|xs| - 1], k);
      assert ys[..|ys| - 1] == xs[..|xs| - 1][k := xs[k] + 1];
    } else {
      assert ys[..|ys| - 1] == xs[..|xs| - 1];
    }
  }

  lemma {:induction false} SumAllZero(xs: seq<nat>)
    requires forall i :: 0 <= i < |xs| ==> xs[i] == 0
    ensures Sum(xs) == 0
  {
    if xs != [] {
      SumAllZero(xs[..|xs| - 1]);
    }
  }

  /** Every record lands in exactly one month: the counts add up to the
      number of records. */
  lemma {:induction false} MonthHistogramTotal(s: seq<Inquiry>, monthOf: int -> MonthIndex)
    ensures Sum(MonthHistogram(s, monthOf)) == |s|
    decreases |s|
  {
    if s == [] {
      SumAllZero(MonthHistogram(s, monthOf));
    } else {
      var init := s[..|s| - 1];
      var m := monthOf(s[|s| - 1].createdAt);
      MonthHistogramTotal(init, monthOf);
      var before := MonthHistogram(init, monthOf);
      SumBump(before, m);
      assert MonthHistogram(s, monthOf) == before[m := before[m] + 1];
    }
  }

  // ---------------------------------------------------------------------
  // Status histogram
  // ---------------------------------------------------------------------

  /** `String(inq.status ?? 'unknown')`. */
  function StatusKey(r: Inquiry): string {
    r.status.GetOr(UnknownStatus)
  }

  function CountWithKey(s: seq<Inquiry>, key: string): nat {
    if s == [] then 0
    else CountWithKey(s[..|s| - 1], key) + (if StatusKey(s[|s| - 1]) == key then 1 else 0)
  }

  /** `statusCounts[k] = (statusCounts[k] || 0) + 1`. */
  function Bump(m: map<string, nat>, k: string): (r: map<string, nat>)
    ensures r.Keys == m.Keys + {k}
  {
    m[k := (if k in m then m[k] else 0) + 1]
  }

  /** The sum of the values of a map. */
  ghost function SumValues(m: map<string, nat>): nat
    decreases |m.Keys|
  {
    if m == map[] then 0
    else
      var k :| k in m;
      m[k] + SumValues(m - {k})
  }

  /** The sum does not depend on which key is taken first. */
  lemma {:induction false} SumValuesRemove(m: map<string, nat>, k: string)
    requires k in m
    ensures SumValues(m) == m[k] + SumValues(m - {k})
    decreases |m.Keys|
  {
    var j :| j in m && SumValues(m) == m[j] + SumValues(m - {j});
    if j != k {
      SumValuesRemove(m - {j}, k);
      SumValuesRemove(m - {k}, j);
      assert m - {j} - {k} == m - {k} - {j};
    }
  }

  lemma SumValuesBump(m: map<string, nat>, k: string)
    ensures SumValues(Bump(m, k)) == SumValues(m) + 1
  {
    var b := Bump(m, k);
    SumValuesRemove(b, k);
    if k in m {
      SumValuesRemove(m, k);
      assert b - {k} == m - {k};
    } else {
      assert b - {k} == m;
    }
  }

  /** The status counts, accumulated record by record. */
  function StatusHistogram(s: seq<Inquiry>): (h: map<string, nat>)
    ensures forall k :: k in h ==> h[k] == CountWithKey(s, k) && h[k] > 0
    ensures forall k :: k !in h ==> CountWithKey(s, k) == 0
  {
    if s == [] then map[] else Bump(StatusHistogram(s[..|s| - 1]), StatusKey(s[|s| - 1]))
  }

  /** The status counts add up to the number of records. */
  lemma {:induction false} StatusHistogramTotal(s: seq<Inquiry>)
    ensures SumValues(StatusHistogram(s)) == |s|
    decreases |s|
  {
    if s != [] {
      StatusHistogramTotal(s[..|s| - 1]);
      SumValuesBump(StatusHistogram(s[..|s| - 1]), StatusKey(s[|s| - 1]));
    } else {
      assert StatusHistogram(s) == map[];
    }
  }

  /** A record with null status and one stored as the text "unknown" share
      the key. */
  lemma UnknownStatusShared(s: seq<Inquiry>, a: Inquiry, b: Inquiry)
    requires a.status.None? && b.status == Some(UnknownStatus)
    ensures StatusHistogram(s + [a]) == StatusHistogram(s + [b])
  {
    assert (s + [a])[..|s|] == s && (s + [b])[..|s|] == s;
  }

  // ---------------------------------------------------------------------
  // Work-done ratings
  // ---------------------------------------------------------------------

  /** `Number(i.status) === 2`: the status text reads as the number 2 (so
      "2", " 2", "2.0" and "+2" all count); a null status never does. */
  predicate WorkDone(r: Inquiry) {
    r.status.Some? && StringToNumber(r.status.value) == Finite(2.0)
  }

  /** `Number(i.rating) || 0`: a missing rating (NaN) and 0 both add 0. */
  function RatingOf(r: Inquiry): real {
    r.rating.GetOr(0.0)
  }

  /** The sum of RatingOf over the work-done records. */
  function SumRatings(s: seq<Inquiry>): real {
    if s == [] then 0.0
    else SumRatings(s[..|s| - 1]) + (if WorkDone(s[|s| - 1]) then RatingOf(s[|s| - 1]) else 0.0)
  }

  /** The number of work-done records. */
  function CountWorkDone(s: seq<Inquiry>): (n: nat)
    ensures n <= |s|
  {
    if s == [] then 0
    else CountWorkDone(s[..|s| - 1]) + (if WorkDone(s[|s| - 1]) then 1 else 0)
  }

  /** `totalWorkDone ? sumRatings / totalWorkDone : 0`. */
  function Average(sum: real, count: nat): real {
    if count == 0 then 0.0 else sum / count as real
  }

  /** A work-done record without a rating leaves the sum and raises the
      count, so it pulls the average down. */
  lemma MissingRatingCounts(s: seq<Inquiry>, r: Inquiry)
    requires WorkDone(r) && r.rating.None?
    ensures SumRatings(s + [r]) == SumRatings(s)
    ensures CountWorkDone(s + [r]) == CountWorkDone(s) + 1
  {
    assert (s + [r])[..|s|] == s;
  }

  /** With every rating of a work-done record in 0..5, the average is in
      0..5 as well. */
  lemma {:induction false} SumRatingsBounds(s: seq<Inquiry>)
    requires forall r :: r in s && WorkDone(r) ==> 0.0 <= RatingOf(r) <= 5.0
    ensures 0.0 <= SumRatings(s) <= 5.0 * CountWorkDone(s) as real
    decreases |s|
  {
    if s != [] {
      assert forall r :: r in s[..|s| - 1] ==> r in s;
      SumRatingsBounds(s[..|s| - 1]);
      assert s[|s| - 1] in s;
    }
  }

  lemma AverageBounds(s: seq<Inquiry>)
    requires forall r :: r in s && WorkDone(r) ==> 0.0 <= RatingOf(r) <= 5.0
    ensures 0.0 <= Average(SumRatings(s), CountWorkDone(s)) <= 5.0
  {
    SumRatingsBounds(s);
    var sum := SumRatings(s);
    var count := CountWorkDone(s);
    if count > 0 {
      assert Average(sum, count) == sum / count as real;
      QuotientBound(sum, count as real, 5.0);
    }
  }

  /** 0 <= x <= b * c with c > 0 gives 0 <= x / c <= b. */
  lemma QuotientBound(x: real, c: real, b: real)
    requires c > 0.0 && 0.0 <= x <= b * c
    ensures 0.0 <= x / c <= b
  {
    assert x / c <= (b * c) / c;
    assert (b * c) / c == b;
  }

  /** The status written "2" is work done. */
  lemma StatusTwoIsWorkDone(r: Inquiry)
    requires r.status == Some("2")
    ensures WorkDone(r)
  {
    StringToNumberOfIntToString(2);
    assert IntToString(2) == "2";
  }

  // ---------------------------------------------------------------------
  // The handler
  // ---------------------------------------------------------------------

  /** The first loop of the route: twelve counters in an array, one
      increment per inquiry in its creation month. Nothing else changes. */
  method CountByMonth(inquiries: seq<Inquiry>, monthOf: int -> MonthIndex) returns (counts: seq<nat>)
    ensures counts == MonthHistogram(inquiries, monthOf)
  {
    var monthlyCounts := new nat[12](_ => 0);
    var i := 0;
    while i < |inquiries|
      invariant 0 <= i <= |inquiries|
      invariant monthlyCounts[..] == MonthHistogram(inquiries[..i], monthOf)
    {
      var month := monthOf(inquiries[i].createdAt);
      assert inquiries[..i + 1][..i] == inquiries[..i];
      monthlyCounts[month] := monthlyCounts[month] + 1;
      i := i + 1;
    }
    assert inquiries[..i] == inquiries;
    counts := monthlyCounts[..];
  }

  /** The second loop: a counter per status text, created at its first
      occurrence. */
  method CountByStatus(inquiries: seq<Inquiry>) returns (counts: map<string, nat>)
    ensures counts == StatusHistogram(inquiries)
  {
    counts := map[];
    var i := 0;
    while i < |inquiries|
      invariant 0 <= i <= |inquiries|
      invariant counts == StatusHistogram(inquiries[..i])
    {
      var statusKey := StatusKey(inquiries[i]);
      ghost var prefix := inquiries[..i + 1];
      assert prefix[..i] == inquiries[..i] && prefix[i] == inquiries[i];
      ghost var expected := Bump(counts, statusKey);
      assert StatusHistogram(prefix) == expected;
      counts := counts[statusKey := (if statusKey in counts then counts[statusKey] else 0) + 1];
      assert counts == expected;
      i := i + 1;
    }
    assert inquiries[..i] == inquiries;
  }

  /** The statistics, computed as the route does: the month array and the
      status dictionary by a pass over the records, the work-done sum and
      count by filter and reduce. */
  method ComputeStats(users: seq<User>, inquiries: seq<Inquiry>, sections: seq<Section>, monthOf: int -> MonthIndex)
    returns (stats: Stats)
    ensures stats.usersCount == |users| && stats.inquiriesCount == |inquiries| && stats.sectionsCount == |sections|
    ensures stats.monthlyCounts == MonthHistogram(inquiries, monthOf)
    ensures |stats.monthlyCounts| == 12 && Sum(stats.monthlyCounts) == |inquiries|
    ensures stats.statusCounts == StatusHistogram(inquiries)
    ensures stats.avgRating == Average(SumRatings(inquiries), CountWorkDone(inquiries))
    ensures CountWorkDone(inquiries) == 0 ==> stats.avgRating == 0.0
  {
    var monthlyCounts := CountByMonth(inquiries, monthOf);
    MonthHistogramTotal(inquiries, monthOf);
    var statusCounts := CountByStatus(inquiries);
    var totalWorkDone := CountWorkDone(inquiries);
    var sumRatings := SumRatings(inquiries);
    var avgRating := if totalWorkDone != 0 then sumRatings / totalWorkDone as real else 0.0;
    stats := Stats(|users|, |inquiries|, |sections|, monthlyCounts, statusCounts, avgRating);
  }

  datatype DashboardResponse =
    | Denied(status: int, message: string)
    | Ok(stats: Stats)
    | Failed(status: int, message: string, error: string)

  /** The route: verifyToken runs first and may answer on its own; a
      database failure (`databaseError`, the thrown error's message)
      answers 500 with the fixed message and that error text; otherwise the
      statistics. */
  method DashboardRoute(req: Request, verify: string -> Option<Claims>, databaseError: Option<string>,
                        users: seq<User>, inquiries: seq<Inquiry>, sections: seq<Section>, monthOf: int -> MonthIndex)
    returns (resp: DashboardResponse)
    modifies req
    ensures var token := TokenOf(req.authorization);
      (token.None? || token.value == "") ==> resp == Denied(401, NoTokenMessage)
    ensures var token := TokenOf(req.authorization);
      (token.Some? && token.value != "" && verify(token.value).None?) ==> resp == Denied(403, BadTokenMessage)
    ensures var token := TokenOf(req.authorization);
      var passed := token.Some? && token.value != "" && verify(token.value).Some?;
      (resp.Failed? <==> passed && databaseError.Some?) && (resp.Ok? <==> passed && databaseError.None?)
    ensures resp.Failed? ==> databaseError.Some? && resp == Failed(500, FailureMessage, databaseError.value)
    ensures resp.Ok? ==> resp.stats == Stats(|users|, |inquiries|, |sections|, MonthHistogram(inquiries, monthOf),
                                             StatusHistogram(inquiries), Average(SumRatings(inquiries), CountWorkDone(inquiries)))
    ensures resp.Ok? ==> |resp.stats.monthlyCounts| == 12 && Sum(resp.stats.monthlyCounts) == |inquiries|
  {
    var out := VerifyToken(req, verify);
    if out.Respond? {
      return Denied(out.status, out.message);
    }
    if databaseError.Some? {
      return Failed(500, FailureMessage, databaseError.value);
    }
    var stats := ComputeStats(users, inquiries, sections, monthOf);
    resp := Ok(stats);
  }
}
