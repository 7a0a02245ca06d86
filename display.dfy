/** The pure helpers of the web client that turn a pool account into what a
    viewer sees: the end time in milliseconds, the ended flag, the countdown
    text, shortened keys, and which action button a pool card offers. */
module Display {
  import opened PoolState
  import ClaimRules
  import DepositRules

  /** The client's copy of a pool account: the same fields, with the end
      time in milliseconds. */
  datatype PoolView = PoolView(
    authority: Pubkey,
    potAmount: int,
    lastDepositor: Pubkey,
    lastDepositAmount: int,
    endTimestamp: int,
    gameActive: bool,
    bump: int,
    durationSeconds: int)

  /** The view of a fetched pool: the end time in seconds becomes a whole
      number of milliseconds that converts back to it; every other field is
      copied. */
  function ToView(p: Pool): (v: PoolView)
    ensures v.endTimestamp % 1000 == 0 && v.endTimestamp / 1000 == p.endTimestamp
    ensures v.authority == p.authority && v.potAmount == p.potAmount
    ensures v.lastDepositor == p.lastDepositor && v.lastDepositAmount == p.lastDepositAmount
    ensures v.gameActive == p.gameActive && v.bump == p.bump && v.durationSeconds == p.durationSeconds
  {
    PoolView(p.authority, p.potAmount, p.lastDepositor, p.lastDepositAmount,
             p.endTimestamp * 1000, p.gameActive, p.bump, p.durationSeconds)
  }

  /** Whether a pool card shows as ended at client time `currentTime` (ms). */
  function IsPoolEnded(v: PoolView, currentTime: int): bool
  {
    if !v.gameActive then false else currentTime >= v.endTimestamp
  }

  function Max(a: int, b: int): int { if a >= b then a else b }
  function Min(a: int, b: int): int { if a <= b then a else b }

  // ---- Decimal digits, as Number.prototype.toString and padStart make them

  predicate IsDigit(c: char) { '0' <= c <= '9' }

  predicate AllDigits(s: string)
  {
    forall i :: 0 <= i < |s| ==> IsDigit(s[i])
  }

  function DigitChar(d: nat): (c: char)
    requires d < 10
    ensures IsDigit(c) && c as int - '0' as int == d
  {
    ('0' as int + d) as char
  }

  /** The decimal text of `n`, without leading zeros. */
  function DecimalString(n: nat): (s: string)
    ensures AllDigits(s) && |s| >= 1
    ensures n < 10 <==> |s| == 1
    ensures n >= 10 ==> s[0] != '0'
    decreases n
  {
    if n < 10 then [DigitChar(n)] else DecimalString(n / 10) + [DigitChar(n % 10)]
  }

  /** The number a string of decimal digits denotes. */
  function DigitsValue(s: string): nat
    requires AllDigits(s)
  {
    if s == [] then 0 else DigitsValue(s[..|s| - 1]) * 10 + (s[|s| - 1] as int - '0' as int)
  }

  /** Reading back the decimal text of `n` gives `n`. */
  lemma {:induction false} DecimalRoundTrip(n: nat)
    ensures DigitsValue(DecimalString(n)) == n
    decreases n
  {
    if n >= 10 {
      DecimalRoundTrip(n / 10);
      var s := DecimalString(n);
      assert s[..|s| - 1] == DecimalString(n / 10);
    }
  }

  /** A number below 100 has at most two digits. */
  lemma AtMostTwoDigits(n: nat)
    requires n < 100
    ensures |DecimalString(n)| <= 2
  {
    if n >= 10 {
      assert DecimalString(n) == DecimalString(n / 10) + [DigitChar(n % 10)];
    }
  }

  function Repeat(c: char, k: nat): (r: string)
    ensures |r| == k && forall i :: 0 <= i < k ==> r[i] == c
  {
    if k == 0 then [] else [c] + Repeat(c, k - 1)
  }

  /** `s.padStart(width, c)` for a one-character filler: `s` itself when it
      is already `width` long, otherwise `s` preceded by as many `c` as make
      up the width. */
  function PadStart(s: string, width: nat, c: char): (r: string)
    ensures |r| == Max(|s|, width)
    ensures r[|r| - |s|..] == s
    ensures forall i :: 0 <= i < |r| - |s| ==> r[i] == c
  {
    if |s| >= width then s else Repeat(c, width - |s|) + s
  }

  /** Leading zeros do not change the value of a digit string. */
  lemma {:induction false} LeadingZerosIgnored(zeros: string, s: string)
    requires forall i :: 0 <= i < |zeros| ==> zeros[i] == '0'
    requires AllDigits(s)
    ensures AllDigits(zeros + s) && DigitsValue(zeros + s) == DigitsValue(s)
    decreases |s|
  {
    var t := zeros + s;
    assert AllDigits(t) by {
      forall i | 0 <= i < |t| ensures IsDigit(t[i]) {
        if i < |zeros| { assert t[i] == zeros[i]; } else { assert t[i] == s[i - |zeros|]; }
      }
    }
    if s == [] {
      assert t == zeros;
      ZerosAreZero(zeros);
    } else {
      var s' := s[..|s| - 1];
      assert t[..|t| - 1] == zeros + s';
      LeadingZerosIgnored(zeros, s');
    }
  }

  lemma {:induction false} ZerosAreZero(zeros: string)
    requires forall i :: 0 <= i < |zeros| ==> zeros[i] == '0'
    ensures AllDigits(zeros) && DigitsValue(zeros) == 0
    decreases |zeros|
  {
    if zeros != [] {
      ZerosAreZero(zeros[..|zeros| - 1]);
    }
  }

  /** Padding a number's decimal text with '0' to two places keeps its
      value, and a number below 100 comes out exactly two characters long. */
  lemma PaddedDecimal(n: nat)
    ensures AllDigits(PadStart(DecimalString(n), 2, '0'))
    ensures DigitsValue(PadStart(DecimalString(n), 2, '0')) == n
    ensures |PadStart(DecimalString(n), 2, '0')| >= 2
    ensures n < 100 ==> |PadStart(DecimalString(n), 2, '0')| == 2
  {
    var s := DecimalString(n);
    var r := PadStart(s, 2, '0');
    var zeros := r[..|r| - |s|];
    assert r == zeros + s;
    LeadingZerosIgnored(zeros, s);
    DecimalRoundTrip(n);
    if n < 100 { AtMostTwoDigits(n); }
  }

  // ---- The countdown

  /** The countdown text of a pool card at client time `currentTime` (ms). */
  function FormatTimeRemaining(v: PoolView, currentTime: int): string
  {
    if !v.gameActive then "Not Started"
    else
      var remaining := Max(0, v.endTimestamp - currentTime);
      if remaining == 0 then "Ended"
      else
        ClockText(remaining / 60000, (remaining % 60000) / 1000)
  }

  /** `MM:SS`: each part in decimal, padded with '0' to two places. */
  function ClockText(minutes: nat, seconds: nat): string
  {
    PadStart(DecimalString(minutes), 2, '0') + ":" + PadStart(DecimalString(seconds), 2, '0')
  }

  /** `r` reads as a clock showing `minutes` and `seconds`: a colon three
      places from the end, digits before it and exactly two digits after. */
  ghost predicate ShowsClock(r: string, minutes: nat, seconds: nat)
  {
    && |r| >= 5 && r[|r| - 3] == ':'
    && AllDigits(r[..|r| - 3]) && AllDigits(r[|r| - 2..])
    && DigitsValue(r[..|r| - 3]) == minutes
    && DigitsValue(r[|r| - 2..]) == seconds
  }

  /** The clock text reads back as the minutes and seconds it was made
      from, when the seconds are below 60. */
  lemma ClockTextParts(minutes: nat, seconds: nat)
    requires seconds < 60
    ensures ShowsClock(ClockText(minutes, seconds), minutes, seconds)
  {
    PaddedDecimal(minutes);
    PaddedDecimal(seconds);
    var mm := PadStart(DecimalString(minutes), 2, '0');
    var ss := PadStart(DecimalString(seconds), 2, '0');
    JoinAtColon(mm, ss);
    assert ClockText(minutes, seconds) == mm + ":" + ss;
  }

  lemma JoinAtColon(mm: string, ss: string)
    requires |mm| >= 2 && |ss| == 2 && AllDigits(mm) && AllDigits(ss)
    ensures ShowsClock(mm + ":" + ss, DigitsValue(mm), DigitsValue(ss))
  {
    var r := mm + ":" + ss;
    var k := |mm|;
    assert |r| - 3 == k && |r| - 2 == k + 1;
    assert r[..k] == mm;
    assert r[k] == ':';
    assert r[k + 1..] == ss;
  }

  /** Whole minutes and leftover whole seconds of a span of milliseconds
      add back up to its whole seconds. */
  lemma MinutesAndSeconds(remaining: nat)
    ensures (remaining % 60000) / 1000 < 60
    ensures (remaining / 60000) * 60 + (remaining % 60000) / 1000 == remaining / 1000
  {
    var q, r := remaining / 60000, remaining % 60000;
    var a, b := r / 1000, r % 1000;
    assert remaining == 1000 * (60 * q + a) + b;
    DivUnique(remaining, 1000, 60 * q + a, b);
  }

  lemma DivUnique(x: int, d: int, q: int, r: int)
    requires d > 0 && 0 <= r < d && x == d * q + r
    ensures x / d == q
  {
    if x / d > q {
      assert d * (x / d) >= d * (q + 1) by { MulMono(d, q + 1, x / d); }
    } else if x / d < q {
      assert d * q >= d * (x / d + 1) by { MulMono(d, x / d + 1, q); }
    }
  }

  lemma MulMono(d: int, a: int, b: int)
    requires d > 0 && a <= b
    ensures d * a <= d * b
  {
  }

  /** Proof step: while an active pool's end lies ahead, the countdown takes
      its clock-text branch. */
  lemma CountdownIsClock(v: PoolView, currentTime: int)
    requires v.gameActive && currentTime < v.endTimestamp
    ensures var remaining := v.endTimestamp - currentTime;
      FormatTimeRemaining(v, currentTime) == ClockText(remaining / 60000, (remaining % 60000) / 1000)
  {
  }

  /** A text with a colon three places from its end is neither status word. */
  lemma NoStatusWord(r: string)
    requires |r| >= 3 && r[|r| - 3] == ':'
    ensures r != "Ended" && r != "Not Started"
  {
    assert "Ended"[2] != ':' && "Not Started"[8] != ':';
  }

  /** While an active pool's end lies ahead, the countdown is `MM:SS`: a
      colon three places from the end, the minutes before it (at least two
      digits) and exactly two digits of seconds after it, below 60, which
      together denote the whole seconds remaining. */
  lemma CountdownShape(v: PoolView, currentTime: int)
    requires v.gameActive && currentTime < v.endTimestamp
    ensures var remaining := v.endTimestamp - currentTime;
      && ShowsClock(FormatTimeRemaining(v, currentTime), remaining / 60000, (remaining % 60000) / 1000)
      && (remaining % 60000) / 1000 < 60
      && (remaining / 60000) * 60 + (remaining % 60000) / 1000 == remaining / 1000
  {
    var remaining := v.endTimestamp - currentTime;
    MinutesAndSeconds(remaining);
    CountdownIsClock(v, currentTime);
    ClockTextParts(remaining / 60000, (remaining % 60000) / 1000);
  }

  /** The countdown says "Not Started" exactly for an inactive pool, and
      "Ended" exactly when the card shows the pool as ended. */
  lemma CountdownStatus(v: PoolView, currentTime: int)
    ensures FormatTimeRemaining(v, currentTime) == "Not Started" <==> !v.gameActive
    ensures FormatTimeRemaining(v, currentTime) == "Ended" <==> IsPoolEnded(v, currentTime)
  {
    var r := FormatTimeRemaining(v, currentTime);
    if !v.gameActive {
      assert r == "Not Started";
    } else if currentTime >= v.endTimestamp {
      assert r == "Ended";
    } else {
      CountdownShape(v, currentTime);
      NoStatusWord(r);
    }
  }

  // ---- Shortened keys

  /** Where a `String.prototype.slice` index lands in a string of length
      `len`: a negative index counts from the end, and both are clamped. */
  function SliceIndex(i: int, len: nat): (k: nat)
    ensures k <= len
  {
    if i < 0 then Max(len + i, 0) else Min(i, len)
  }

  /** `s.slice(start, end)`. */
  function Slice(s: string, start: int, end: int): string
  {
    var a, b := SliceIndex(start, |s|), SliceIndex(end, |s|);
    if a < b then s[a..b] else []
  }

  /** A key shown as its first three characters, "...", and its last three
      (all of a shorter key on both sides). */
  function TruncateKey(key: string): (r: string)
    ensures var n := Min(3, |key|);
      && |r| == 2 * n + 3
      && r[..n] == key[..n]
      && r[n..n + 3] == "..."
      && r[n + 3..] == key[|key| - n..]
    ensures |key| >= 3 ==> |r| == 9
  {
    Slice(key, 0, 3) + "..." + Slice(key, -3, |key|)
  }

  // ---- The action buttons

  /** The deposit button: the pool does not show as ended and is active. */
  function OffersDeposit(v: PoolView, currentTime: int): bool
  {
    !IsPoolEnded(v, currentTime) && v.gameActive
  }

  /** The claim button: the pool shows as ended, the connected wallet (if
      any) made the leading deposit, and the pot is not empty. A card that
      offers it never offers the deposit button too. */
  function CanClaim(v: PoolView, viewer: Option<Pubkey>, currentTime: int): (r: bool)
    ensures r ==> !OffersDeposit(v, currentTime)
  {
    IsPoolEnded(v, currentTime) && viewer == Some(v.lastDepositor) && v.potAmount > 0
  }

  lemma FloorDivAtLeast(c: int, e: int)
    ensures c >= e * 1000 <==> c / 1000 >= e
  {
    DivUnique(c, 1000, c / 1000, c % 1000);
    if c / 1000 >= e {
      MulMono(1000, e, c / 1000);
    } else {
      MulMono(1000, c / 1000 + 1, e);
    }
  }

  /** A fetched pool shows as ended exactly when it is active and the chain
      clock, read as the whole seconds of the client's clock, has reached
      its end: the chain's claim window. */
  lemma EndedIsClaimWindow(p: Pool, currentTime: int)
    ensures IsPoolEnded(ToView(p), currentTime) <==> p.gameActive && currentTime / 1000 >= p.endTimestamp
  {
    FloorDivAtLeast(currentTime, p.endTimestamp);
  }

  /** With the chain clock at the whole seconds of the client's clock, the
      claim button is offered to a wallet exactly when the chain would
      accept that wallet's claim. */
  lemma ClaimButtonMatchesChain(p: Pool, wallet: Pubkey, currentTime: int)
    requires I64_MIN <= currentTime / 1000 <= I64_MAX
    ensures CanClaim(ToView(p), Some(wallet), currentTime)
        <==> ClaimRules.ClaimFailure(p, p.authority, wallet, currentTime / 1000) == None
  {
    EndedIsClaimWindow(p, currentTime);
  }

  /** When the deposit button is offered the chain's time check passes too;
      the converse fails in the last second, `now == endTimestamp`, where
      the chain still takes deposits but the card no longer offers them. */
  lemma DepositButtonWithinWindow(p: Pool, funds: nat, amount: U64, currentTime: int)
    requires I64_MIN <= currentTime / 1000 <= I64_MAX
    ensures OffersDeposit(ToView(p), currentTime)
        <==> p.gameActive && currentTime / 1000 < p.endTimestamp
    ensures OffersDeposit(ToView(p), currentTime)
        ==> DepositRules.DepositFailure(p, p.authority, funds, amount, currentTime / 1000) != Some(Program(GameEnded))
  {
    EndedIsClaimWindow(p, currentTime);
  }

  /** At the first millisecond of the end second the card hides the deposit
      button of an active pool while the chain's time check still passes. */
  lemma LastSecondHidden(p: Pool, funds: nat, amount: U64)
    requires p.gameActive
    ensures !OffersDeposit(ToView(p), p.endTimestamp * 1000)
    ensures DepositRules.DepositFailure(p, p.authority, funds, amount, p.endTimestamp) != Some(Program(GameEnded))
  {
  }
}
