/** The health score of a service, in points taken off for errors. */
module HealthScoring {

  function Min(a: real, b: real): real { if a <= b then a else b }
  function Max(a: real, b: real): real { if a >= b then a else b }

  function SpanErrorRatio(totalSpans: nat, errorSpans: nat): real {
    if totalSpans > 0 then errorSpans as real / totalSpans as real else 0.0
  }

  function HealthScore(errorLogs: nat, totalSpans: nat, errorSpans: nat): real {
    var afterSpans := 100.0 - Min(SpanErrorRatio(totalSpans, errorSpans) * 30.0, 30.0);
    var afterLogs := if errorLogs > 0 then afterSpans - Min(errorLogs as real, 40.0) else afterSpans;
    Min(Max(afterLogs, 0.0), 100.0)
  }

  lemma RatioBounds(totalSpans: nat, errorSpans: nat)
    requires errorSpans <= totalSpans
    ensures 0.0 <= SpanErrorRatio(totalSpans, errorSpans) <= 1.0
    ensures SpanErrorRatio(totalSpans, errorSpans) == 0.0 <==> errorSpans == 0
    ensures SpanErrorRatio(totalSpans, errorSpans) * totalSpans as real == errorSpans as real
  {
    if totalSpans > 0 {
      var e, t := errorSpans as real, totalSpans as real;
      assert e / t * t == e;
    }
  }

  /** Spans cost at most 30 points and logs at most 40; a full score means no error at all. */
  lemma ScoreBounds(errorLogs: nat, totalSpans: nat, errorSpans: nat)
    requires errorSpans <= totalSpans
    ensures 30.0 <= HealthScore(errorLogs, totalSpans, errorSpans) <= 100.0
    ensures HealthScore(errorLogs, totalSpans, errorSpans) == 100.0 <==> errorLogs == 0 && errorSpans == 0
  {
    RatioBounds(totalSpans, errorSpans);
  }

  /** One point off for each error log up to 40. */
  ghost predicate LogPoints(points: real, errorLogs: nat) {
    if errorLogs <= 40 then points == errorLogs as real else points == 40.0
  }

  /** 30 points off times the share of spans that are errors; none without spans. */
  ghost predicate SpanPoints(points: real, spans: nat, errors: nat) {
    if spans == 0 then points == 0.0 else points * spans as real == 30.0 * errors as real
  }

  ghost predicate ScoreIs(score: real, errorLogs: nat, spans: nat, errors: nat) {
    exists a: real, b: real :: LogPoints(a, errorLogs) && SpanPoints(b, spans, errors) && score == 100.0 - a - b
  }

  lemma ScoreFormula(errorLogs: nat, spans: nat, errors: nat)
    requires errors <= spans
    ensures ScoreIs(HealthScore(errorLogs, spans, errors), errorLogs, spans, errors)
  {
    RatioBounds(spans, errors);
    var a, b := Min(errorLogs as real, 40.0), SpanErrorRatio(spans, errors) * 30.0;
    assert SpanPoints(b, spans, errors) by {
      assert SpanErrorRatio(spans, errors) * 30.0 * spans as real == 30.0 * (SpanErrorRatio(spans, errors) * spans as real);
    }
    assert LogPoints(a, errorLogs);
  }

  // -------------------------------------------------------- comparing services

  lemma TimesKeepsOrder(x: real, y: real, n: nat)
    requires n > 0
    ensures x <= y <==> x * n as real <= y * n as real
  {
    if x < y { assert (y - x) * n as real > 0.0; }
    if y < x { assert (x - y) * n as real > 0.0; }
  }

  /** The share of error spans of one service is at most that of another. */
  ghost predicate ShareAtMost(errors: nat, spans: nat, errors': nat, spans': nat) {
    errors == 0 || (spans > 0 && spans' > 0 && errors * spans' <= errors' * spans)
  }

  lemma SharePoints(b: real, spans: nat, errors: nat, b': real, spans': nat, errors': nat)
    requires errors <= spans && errors' <= spans' && SpanPoints(b, spans, errors) && SpanPoints(b', spans', errors')
    ensures ShareAtMost(errors, spans, errors', spans') <==> b <= b'
  {
    var n, n', k, k' := spans as real, spans' as real, errors as real, errors' as real;
    if spans > 0 { TimesKeepsOrder(b, 0.0, spans); }
    if spans' > 0 { TimesKeepsOrder(0.0, b', spans'); }
    if spans > 0 && spans' > 0 {
      assert b * n * n' == 30.0 * k * n' && b' * n * n' == 30.0 * k' * n by {
        assert b * n * n' == (b * n) * n' && b' * n * n' == (b' * n') * n;
      }
      TimesKeepsOrder(b, b', spans);
      TimesKeepsOrder(b * n, b' * n, spans');
      assert (errors * spans') as real == k * n' && (errors' * spans) as real == k' * n;
    }
  }

  /** With equal spans, up to 40 error logs cost a point each and further ones nothing. */
  lemma LogsCost(s: real, s': real, e: nat, e': nat, spans: nat, errors: nat)
    requires errors <= spans && ScoreIs(s, e, spans, errors) && ScoreIs(s', e', spans, errors)
    ensures e <= e' <= 40 ==> s - s' == (e' - e) as real
    ensures e >= 40 && e' >= 40 ==> s == s'
  {
    var a: real, b: real :| LogPoints(a, e) && SpanPoints(b, spans, errors) && s == 100.0 - a - b;
    var a': real, b': real :| LogPoints(a', e') && SpanPoints(b', spans, errors) && s' == 100.0 - a' - b';
    SharePoints(b, spans, errors, b', spans, errors);
    SharePoints(b', spans, errors, b, spans, errors);
    assert b == b';
    assert e <= e' <= 40 ==> a == e as real && a' == e' as real;
  }

  /** With equal logs, errors in `k` of `n` spans cost 30 times `k / n` points. */
  lemma SpansCost(s: real, s': real, e: nat, n: nat, k: nat, n': nat)
    requires k <= n && n > 0 && ScoreIs(s, e, n, k) && ScoreIs(s', e, n', 0)
    ensures (s' - s) * n as real == 30.0 * k as real
  {
    var a: real, b: real :| LogPoints(a, e) && SpanPoints(b, n, k) && s == 100.0 - a - b;
    var a': real, b': real :| LogPoints(a', e) && SpanPoints(b', n', 0) && s' == 100.0 - a' - b';
    if n' > 0 { TimesKeepsOrder(b', 0.0, n'); TimesKeepsOrder(0.0, b', n'); }
  }

  /** More errors of either kind never score better, and score worse unless both have over 40 error logs or the same. */
  lemma MoreErrorsScoreWorse(s: real, s': real, e: nat, n: nat, k: nat, e': nat, n': nat, k': nat)
    requires k <= n && k' <= n' && ScoreIs(s, e, n, k) && ScoreIs(s', e', n', k')
    requires e <= e' && ShareAtMost(k, n, k', n')
    ensures s' <= s
    ensures s' == s <==> (e == e' || e >= 40) && ShareAtMost(k', n', k, n)
  {
    var a: real, b: real :| LogPoints(a, e) && SpanPoints(b, n, k) && s == 100.0 - a - b;
    var a': real, b': real :| LogPoints(a', e') && SpanPoints(b', n', k') && s' == 100.0 - a' - b';
    SharePoints(b, n, k, b', n', k');
    SharePoints(b', n', k', b, n, k);
  }
}
