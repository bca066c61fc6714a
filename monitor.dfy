/**
 The usage alert of the allocator: the percentage of a supernet's addresses no
 longer free, and the low-capacity warning raised above 80 percent.
 */
module Monitor {
  import opened Outcomes
  import Ipv4

  /** An alert fires when strictly more than this percentage is used. */
  const Threshold: int := 80

  const AlertSubject: string := "WARNING free CIDR ranges running low"

  /** The fixed pieces of the warning text. */
  const MessageHead: string := "WARNING: "
  const RegionWord: string := " in region "
  const UsedWord: string := " has used "
  const MessageTail: string := "% of available CIDR addresses"

  /** The warning the alert publishes. */
  datatype Alert = Alert(percentageUsed: int, region: string, env: string) {
    /** The text opens with the fixed head and closes with the fixed tail. */
    function Message(): (r: string)
      ensures |r| > |MessageHead| + |MessageTail|
      ensures r[..|MessageHead|] == MessageHead && r[|r| - |MessageTail|..] == MessageTail
    {
      var m := MessageHead + env + RegionWord + region + UsedWord + IntToString(percentageUsed) + MessageTail;
      assert m[..|MessageHead|] == MessageHead;
      assert m[|m| - |MessageTail|..] == MessageTail;
      m
    }
  }

  /** Division truncating toward zero, as `int()` truncates a quotient. */
  function TruncDiv(n: int, d: nat): int
    requires d > 0
  {
    if n >= 0 then n / d else -((-n) / d)
  }

  /**
   `int(100 - free/total*100)`, over exact rationals: never above 100, and not
   negative while no more is free than the total.
   */
  function PercentageUsed(total: nat, free: nat): (r: int)
    requires total > 0
    ensures r <= 100
    ensures free <= total ==> 0 <= r
  {
    PercentageRange(total, free);
    TruncDiv(100 * (total - free), total)
  }

  lemma PercentageRange(total: nat, free: nat)
    requires total > 0
    ensures TruncDiv(100 * (total - free), total) <= 100
    ensures free <= total ==> 0 <= TruncDiv(100 * (total - free), total)
  {
    if free <= total {
      var n := 100 * (total - free);
      DivBounds(n, total);
      Ipv4.MulLeCancel(n / total, 100, total);
    }
  }

  /**
   monitoring: ZeroDivisionError for an empty supernet, otherwise the alert when
   the used percentage exceeds the threshold, and nothing when it does not.
   */
  function Monitoring(total: nat, free: nat, region: string, env: string): (r: Result<Option<Alert>>)
    ensures r.Err? <==> total == 0
    ensures r.Err? ==> r.error == ZeroDivisionError
    ensures r.Ok? && r.value.Some? ==>
      var a := r.value.value;
      a.region == region && a.env == env && Threshold < a.percentageUsed <= 100
    ensures r.Ok? && r.value.None? ==> PercentageUsed(total, free) <= Threshold
  {
    if total == 0 then Err(ZeroDivisionError)
    else
      var pct := PercentageUsed(total, free);
      if pct > Threshold then Ok(Some(Alert(pct, region, env))) else Ok(None)
  }

  // ---------------------------------------------------------------------
  // Decimal rendering, as str() writes an integer

  function DigitChar(d: nat): char
    requires d < 10
  {
    "0123456789"[d]
  }

  function DigitValue(ch: char): nat
  {
    if '0' <= ch <= '9' then (ch - '0') as nat else 0
  }

  predicate IsDigits(s: string)
  {
    forall i :: 0 <= i < |s| ==> '0' <= s[i] <= '9'
  }

  function NatToString(n: nat): string
  {
    if n < 10 then [DigitChar(n)] else NatToString(n / 10) + [DigitChar(n % 10)]
  }

  function IntToString(n: int): string
  {
    if n < 0 then "-" + NatToString(-n) else NatToString(n)
  }

  /** The value of a string of decimal digits. */
  function DecimalValue(s: string): nat
  {
    if s == [] then 0 else 10 * DecimalValue(s[..|s| - 1]) + DigitValue(s[|s| - 1])
  }

  lemma DigitRoundTrip(d: nat)
    requires d < 10
    ensures '0' <= DigitChar(d) <= '9' && DigitValue(DigitChar(d)) == d
  {
  }

  /** A natural is written as a non-empty string of digits whose value is that natural. */
  lemma {:induction false} NatToStringRoundTrip(n: nat)
    ensures |NatToString(n)| > 0 && IsDigits(NatToString(n))
    ensures DecimalValue(NatToString(n)) == n
  {
    if n < 10 {
      DigitRoundTrip(n);
    } else {
      var s := NatToString(n / 10);
      NatToStringRoundTrip(n / 10);
      DigitRoundTrip(n % 10);
      var t := s + [DigitChar(n % 10)];
      assert t[..|t| - 1] == s;
    }
  }

  // ---------------------------------------------------------------------
  // What monitoring promises

  /** Truncation toward zero over a non-negative numerator is the floor: q·d <= n < (q+1)·d. */
  lemma PercentageIsFloor(total: nat, free: nat)
    requires 0 < total && free <= total
    ensures 0 <= PercentageUsed(total, free) <= 100
    ensures PercentageUsed(total, free) * total <= 100 * (total - free) < (PercentageUsed(total, free) + 1) * total
  {
    FloorBounds(100 * (total - free), total, PercentageUsed(total, free));
  }

  lemma FloorBounds(n: nat, d: nat, q: int)
    requires d > 0 && q == n / d && n <= 100 * d
    ensures 0 <= q <= 100 && q * d <= n < (q + 1) * d
  {
    DivBounds(n, d);
    Ipv4.MulLeCancel(q, 100, d);
  }

  /** Euclidean division of a natural: q·d <= n < (q+1)·d. */
  lemma DivBounds(n: nat, d: nat)
    requires d > 0
    ensures (n / d) * d <= n < (n / d + 1) * d
  {
    Ipv4.MulSucc(n / d, d);
  }

  /** The used share exceeds the threshold exactly when at most 19 percent is free. */
  lemma ThresholdCrossing(total: nat, free: nat)
    requires 0 < total && free <= total
    ensures PercentageUsed(total, free) > Threshold <==> 100 * free <= 19 * total
  {
    PercentageIsFloor(total, free);
    var q := PercentageUsed(total, free);
    if q >= 81 {
      Ipv4.MulLe(81, q, total);
    } else {
      Ipv4.MulLe(q + 1, 81, total);
    }
  }

  /** A negative used share (more free than total) truncates to zero or below. */
  lemma PercentageNonPositive(total: nat, free: nat)
    requires 0 < total && total < free
    ensures PercentageUsed(total, free) <= 0
  {
  }

  /** The alert fires exactly when at most 19 percent of the supernet is still free. */
  lemma AlertIffLowFree(total: nat, free: nat, region: string, env: string)
    requires total > 0
    ensures Monitoring(total, free, region, env).Ok?
    ensures Monitoring(total, free, region, env).value.Some? <==> 100 * free <= 19 * total
    ensures Monitoring(total, free, region, env).value.Some? ==>
      Monitoring(total, free, region, env).value.value == Alert(PercentageUsed(total, free), region, env)
  {
    if free <= total {
      ThresholdCrossing(total, free);
    } else {
      PercentageNonPositive(total, free);
    }
  }

  /** A supernet with nothing free is 100 percent used. */
  lemma FullUsage(total: nat)
    requires total > 0
    ensures PercentageUsed(total, 0) == 100
  {
    PercentageIsFloor(total, 0);
    var q := PercentageUsed(total, 0);
    Ipv4.MulLeCancel(q, 100, total);
    if q + 1 <= 100 {
      Ipv4.MulLe(q + 1, 100, total);
    }
  }

  /** 80 percent used does not alert; 81 does; 150 of 1000 free is 85 percent and alerts. */
  lemma ThresholdExamples()
    ensures Monitoring(100, 20, "eu-west-1", "prod") == Ok(None)
    ensures Monitoring(100, 19, "eu-west-1", "prod") == Ok(Some(Alert(81, "eu-west-1", "prod")))
    ensures Monitoring(1000, 150, "eu-west-1", "prod") == Ok(Some(Alert(85, "eu-west-1", "prod")))
  {
    assert PercentageUsed(100, 20) == 80;
    assert PercentageUsed(100, 19) == 81;
    assert PercentageUsed(1000, 150) == 85;
  }

  /**
   The message reads back: after the fixed head come env, the region text
   and the decimal percentage, so a reader of the warning recovers all three.
   */
  lemma MessageParts(a: Alert)
    requires a.percentageUsed >= 0
    ensures var m := a.Message();
      var i := |MessageHead| + |a.env| + |RegionWord|;
      var j := i + |a.region| + |UsedWord|;
      && |m| > j + |MessageTail|
      && m[..|MessageHead|] == MessageHead
      && m[|MessageHead|..|MessageHead| + |a.env|] == a.env
      && m[i..i + |a.region|] == a.region
      && DecimalValue(m[j..|m| - |MessageTail|]) == a.percentageUsed
  {
    NatToStringRoundTrip(a.percentageUsed);
    SevenParts(MessageHead, a.env, RegionWord, a.region, UsedWord, NatToString(a.percentageUsed), MessageTail);
  }

  /** The pieces of a seven-part concatenation sit at the offsets their lengths give. */
  lemma SevenParts(p0: string, e: string, p1: string, r: string, p2: string, d: string, p3: string)
    ensures var m := p0 + e + p1 + r + p2 + d + p3;
      var i := |p0| + |e| + |p1|;
      var j := i + |r| + |p2|;
      && |m| == j + |d| + |p3|
      && m[..|p0|] == p0
      && m[|p0|..|p0| + |e|] == e
      && m[i..i + |r|] == r
      && m[j..j + |d|] == d
  {
    var m := p0 + e + p1 + r + p2 + d + p3;
    var i := |p0| + |e| + |p1|;
    var j := i + |r| + |p2|;
    assert m[..|p0|] == p0;
    assert m[|p0|..|p0| + |e|] == e;
    assert m[i..i + |r|] == r;
    assert m[j..j + |d|] == d;
  }
}
