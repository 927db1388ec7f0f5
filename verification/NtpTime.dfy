/** NTP time stamps (RFC 5905, section 6) and the milliseconds of Unix time made of them. */
module NtpTime {
  import opened Words

  const SEVENTY_YEARS: u32 := 2208988800
  const PER_MILLISECOND: nat := 0xFFFF_FFFF / 1000
  const PACKET_SIZE: nat := 48

  /** Unix seconds, by a 32-bit subtraction. */
  function UnixSeconds(seconds: u32): u32 {
    Wrap32(seconds - SEVENTY_YEARS)
  }

  function Milliseconds(fraction: u32): nat {
    fraction / PER_MILLISECOND
  }

  function UnixMillis(seconds: u32, fraction: u32): nat {
    UnixSeconds(seconds) * 1000 + Milliseconds(fraction)
  }

  /** The time a packet carries. */
  function Reading(p: seq<byte>): nat
    requires |p| == PACKET_SIZE
  {
    UnixMillis(Be32(p[40..44]), Be32(p[44..48]))
  }

  /**
   The 32 bits of seconds an NTP server sends at `unix` seconds of Unix time; the era is not sent.
   NTP counts from 1900, which is 70 years, 17 of them leap years, before 1970.
   */
  function WireSeconds(unix: nat): u32 {
    (unix + (70 * 365 + 17) * 86400) % 0x1_0000_0000
  }

  /** Whole milliseconds since the Unix epoch, rounded down. */
  function ExactMillis(unix: nat, fraction: u32): nat {
    (unix * U32 + fraction) * 1000 / U32
  }

  /** Seconds are recovered across the change of era in 2036, up to 2^32 of them, and beyond that modulo 2^32. */
  lemma SecondsRoundTrip(unix: nat)
    ensures UnixSeconds(WireSeconds(unix)) == unix % U32
    ensures unix < U32 ==> UnixSeconds(WireSeconds(unix)) == unix
  {
    var wrapped := unix + (70 * 365 + 17) * 86400;
    assert WireSeconds(unix) == wrapped % U32;
    assert wrapped == wrapped / U32 * U32 + wrapped % U32;
    assert UnixSeconds(WireSeconds(unix)) == (unix - wrapped / U32 * U32) % U32;
    ModShift(unix, wrapped / U32);
  }

  lemma ModShift(x: int, k: int)
    ensures (x - k * U32) % U32 == x % U32
  {
    var q := x / U32;
    assert x - k * U32 == (q - k) * U32 + x % U32;
  }

  /** Division by 4294967 instead of 4294967.296 is off by one exactly where the remainder is small. */
  lemma FractionError(fraction: u32)
    ensures fraction as int * 1000 / U32
         == Milliseconds(fraction) - if 1000 * (fraction % PER_MILLISECOND) < 296 * Milliseconds(fraction) then 1 else 0
    ensures Milliseconds(fraction) == 1000 <==> fraction >= 4294967000
    ensures Milliseconds(fraction) <= 1000
  {
    var q, r := fraction / PER_MILLISECOND, fraction % PER_MILLISECOND;
    assert fraction == q * PER_MILLISECOND + r;
    assert fraction as int * 1000 == q * U32 + (1000 * r - 296 * q);
  }

  lemma WholeSeconds(unix: nat, fraction: u32)
    ensures ExactMillis(unix, fraction) == unix * 1000 + fraction as int * 1000 / U32
  {
    assert (unix * U32 + fraction) * 1000 == unix * 1000 * U32 + fraction as int * 1000;
  }

  /**
   For every Unix time below 2^32 seconds the milliseconds computed from its time stamp are the
   exact ones rounded down, or one more; which of the two, the fraction alone decides.
   */
  lemma ConversionError(unix: nat, fraction: u32)
    requires unix < U32
    ensures UnixMillis(WireSeconds(unix), fraction) == ExactMillis(unix, fraction)
      + if 1000 * (fraction % PER_MILLISECOND) < 296 * Milliseconds(fraction) then 1 else 0
  {
    SecondsRoundTrip(unix);
    FractionError(fraction);
    WholeSeconds(unix, fraction);
  }

  /** Later times never give an earlier result. */
  lemma ConversionMonotone(unix: nat, fraction: u32, unix': nat, fraction': u32)
    requires unix < U32 && unix' < U32
    requires unix < unix' || (unix == unix' && fraction <= fraction')
    ensures UnixMillis(WireSeconds(unix), fraction) <= UnixMillis(WireSeconds(unix'), fraction')
  {
    SecondsRoundTrip(unix);
    SecondsRoundTrip(unix');
    FractionError(fraction);
    hide UnixSeconds, WireSeconds;
    if fraction <= fraction' {
      MillisecondsMonotone(fraction, fraction');
    }
    hide Milliseconds;
  }

  lemma MillisecondsMonotone(fraction: u32, fraction': u32)
    requires fraction <= fraction'
    ensures Milliseconds(fraction) <= Milliseconds(fraction')
  {
    DivisionInOrder(fraction, fraction', PER_MILLISECOND);
  }

  lemma DivisionInOrder(a: nat, b: nat, d: nat)
    requires a <= b && d > 0
    ensures a / d <= b / d
  {
    var q, r := a / d, b / d;
    if q > r {
      TimesInOrder(r + 1, q, d);
    }
  }

  lemma TimesInOrder(x: nat, y: nat, d: nat)
    requires x <= y
    ensures x * d <= y * d
  {
  }

  /** The last milliseconds of a second coincide with the first of the next. */
  lemma SecondOverlap(unix: nat, fraction: u32)
    requires unix + 1 < U32
    ensures UnixMillis(WireSeconds(unix), fraction) == UnixMillis(WireSeconds(unix + 1), 0) <==> fraction >= 4294967000
  {
    SecondsRoundTrip(unix);
    SecondsRoundTrip(unix + 1);
    FractionError(fraction);
  }

  /** From time to packet and back. */
  lemma ReadingOf(p: seq<byte>, unix: nat, fraction: u32)
    requires |p| == PACKET_SIZE && unix < U32
    requires p[40..44] == Bytes32(WireSeconds(unix)) && p[44..48] == Bytes32(fraction)
    ensures ExactMillis(unix, fraction) <= Reading(p) <= ExactMillis(unix, fraction) + 1
  {
    Bytes32RoundTrip(WireSeconds(unix));
    Bytes32RoundTrip(fraction);
    ConversionError(unix, fraction);
  }
}
