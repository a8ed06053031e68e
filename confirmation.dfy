/** Confirmation numbers of purchases: "CONF-", the millisecond timestamp in upper-case
    base 36, "-", and a random component of at most seven upper-case base-36
    characters. The clock reading and the base-36 rendering of the random draw are
    parameters; the parser below is the inverse that states the format. */
module Confirmation {
  import opened Seqs
  import opened Radix

  const Base36: nat := 36
  /** Length of the random component. */
  const ConfLength: nat := 7
  const Prefix: string := "CONF-"

  function Min(a: nat, b: nat): nat
  {
    if a <= b then a else b
  }

  /** `s.substring(start, end)` for `start <= end`: both ends are clamped to the length. */
  function Substring(s: string, start: nat, end: nat): (r: string)
    requires start <= end
    ensures |r| <= end - start
    ensures start <= |s| ==> r == s[start..][..Min(end - start, |s| - start)]
  {
    var e := Min(end, |s|);
    s[Min(start, e)..e]
  }

  /** The random component, cut from the base-36 rendering of the random draw: its
      leading "0." skipped, at most ConfLength characters kept, upper-cased. */
  function RandomComponent(rendering: string): (r: string)
    ensures |r| <= ConfLength
  {
    Upper(Substring(rendering, 2, 2 + ConfLength))
  }

  /** The timestamp in upper-case base 36: non-empty upper-case digits that read back
      as the timestamp. */
  function TimestampComponent(timestamp: nat): (r: string)
    ensures r != [] && UpperDigits(r)
    ensures forall i :: 0 <= i < |r| ==> IsDigit(r[i], Base36)
    ensures Value(r, Base36) == timestamp
  {
    UpperKeepsDigits(ToRadix(timestamp, Base36), Base36);
    ValueOfToRadix(timestamp, Base36);
    Upper(ToRadix(timestamp, Base36))
  }

  /** The confirmation number: the prefix, the timestamp component, a dash and the
      random component, the latter at most ConfLength characters. */
  function GenerateConfirmationNumber(timestamp: nat, rendering: string): (r: string)
    ensures |r| > |Prefix| && r[..|Prefix|] == Prefix
    ensures |r| <= |Prefix| + |TimestampComponent(timestamp)| + 1 + ConfLength
  {
    Prefix + (TimestampComponent(timestamp) + "-" + RandomComponent(rendering))
  }

  /** What rendering a draw from [0, 1) in base 36 can produce: "0", or "0." followed
      by lower-case base-36 digits. */
  predicate IsRandomRendering(s: string)
  {
    s == "0" || (|s| >= 2 && s[..2] == "0." && forall i :: 2 <= i < |s| ==> IsLowerDigit(s[i]))
  }

  predicate IsDash(c: char)
  {
    c == '-'
  }

  predicate UpperDigits(s: string)
  {
    forall i :: 0 <= i < |s| ==> IsUpperDigit(s[i])
  }

  datatype Parts = Parts(timestamp: nat, random: string)

  /** Reads what follows the prefix: the digits up to the first dash are the
      timestamp, the rest is the random component. */
  function ParseAfterPrefix(rest: string): (r: Option<Parts>)
    ensures r.Some? ==> rest != []
    ensures r.Some? ==> |r.value.random| <= ConfLength && UpperDigits(r.value.random)
  {
    match FirstIndex(rest, IsDash)
    case None => None
    case Some(k) =>
      var stamp, random := rest[..k], rest[k + 1..];
      if stamp != [] && UpperDigits(stamp) && |random| <= ConfLength && UpperDigits(random)
      then
        assert forall i :: 0 <= i < |stamp| ==> IsDigit(stamp[i], Base36);
        Some(Parts(Value(stamp, Base36), random))
      else None
  }

  /** Reads a confirmation number back into its two components; None when the text
      does not have the format CONF-<upper-case base 36>-<at most ConfLength upper-case
      base-36 characters>. */
  function ParseConfirmationNumber(c: string): (r: Option<Parts>)
    ensures r.Some? ==> |c| > |Prefix| && c[..|Prefix|] == Prefix
    ensures r.Some? ==> |r.value.random| <= ConfLength && UpperDigits(r.value.random)
  {
    if |c| < |Prefix| || c[..|Prefix|] != Prefix then None
    else ParseAfterPrefix(c[|Prefix|..])
  }

  /** The random component is the first (at most ConfLength) digits of the draw,
      upper-cased. */
  lemma RandomComponentDigits(rendering: string)
    requires IsRandomRendering(rendering)
    ensures UpperDigits(RandomComponent(rendering))
    ensures rendering == "0" ==> RandomComponent(rendering) == ""
    ensures rendering != "0" ==>
      RandomComponent(rendering) == Upper(rendering[2..][..Min(ConfLength, |rendering| - 2)])
  {
    var cut := Substring(rendering, 2, 2 + ConfLength);
    assert forall i :: 0 <= i < |cut| ==> IsLowerDigit(cut[i]) by {
      if rendering != "0" {
        forall i | 0 <= i < |cut| ensures IsLowerDigit(cut[i]) {
          assert cut[i] == rendering[2 + i];
        }
      }
    }
  }

  /** In stamp + "-" + random with a dash-free stamp, the first dash is the separator. */
  lemma FirstDashIsSeparator(stamp: string, random: string)
    requires UpperDigits(stamp)
    ensures FirstIndex(stamp + "-" + random, IsDash) == Some(|stamp|)
  {
    var rest := stamp + "-" + random;
    assert IsDash(rest[|stamp|]);
    assert forall j :: 0 <= j < |stamp| ==> rest[j] == stamp[j] && !IsDash(rest[j]);
  }

  /** What follows the prefix in the documented format parses into its components. */
  lemma ParseAfterPrefixOfFormat(stamp: string, random: string)
    requires stamp != [] && UpperDigits(stamp)
    requires |random| <= ConfLength && UpperDigits(random)
    ensures forall i :: 0 <= i < |stamp| ==> IsDigit(stamp[i], Base36)
    ensures ParseAfterPrefix(stamp + "-" + random) == Some(Parts(Value(stamp, Base36), random))
  {
    var rest := stamp + "-" + random;
    FirstDashIsSeparator(stamp, random);
    assert rest[..|stamp|] == stamp;
    assert rest[|stamp| + 1..] == random;
  }

  /** Any text of the documented format parses into its two components. */
  lemma ParseOfFormat(stamp: string, random: string)
    requires stamp != [] && UpperDigits(stamp)
    requires |random| <= ConfLength && UpperDigits(random)
    ensures forall i :: 0 <= i < |stamp| ==> IsDigit(stamp[i], Base36)
    ensures ParseConfirmationNumber(Prefix + (stamp + "-" + random))
         == Some(Parts(Value(stamp, Base36), random))
  {
    var rest := stamp + "-" + random;
    var c := Prefix + rest;
    assert c[..|Prefix|] == Prefix;
    assert c[|Prefix|..] == rest;
    ParseAfterPrefixOfFormat(stamp, random);
  }

  /** Parsing a generated confirmation number recovers the timestamp and the random
      component: the number has the documented format. */
  lemma ConfirmationRoundTrip(timestamp: nat, rendering: string)
    requires IsRandomRendering(rendering)
    ensures ParseConfirmationNumber(GenerateConfirmationNumber(timestamp, rendering))
         == Some(Parts(timestamp, RandomComponent(rendering)))
  {
    RandomComponentDigits(rendering);
    ParseOfFormat(TimestampComponent(timestamp), RandomComponent(rendering));
  }

  /** Numbers generated at different milliseconds differ, whatever the draws. */
  lemma DistinctTimestampsDistinctNumbers(t1: nat, r1: string, t2: nat, r2: string)
    requires IsRandomRendering(r1) && IsRandomRendering(r2)
    requires t1 != t2
    ensures GenerateConfirmationNumber(t1, r1) != GenerateConfirmationNumber(t2, r2)
  {
    ConfirmationRoundTrip(t1, r1);
    ConfirmationRoundTrip(t2, r2);
  }
}
