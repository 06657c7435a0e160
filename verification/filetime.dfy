/** Conversion of Unix seconds to Windows FILETIME ticks (100-nanosecond
    intervals since 1601-01-01) and the split of a tick count into the two
    32-bit words of a FILETIME structure. */
module FileTime {

  /** Ticks from 1601-01-01 to the Unix epoch 1970-01-01. */
  const UnixEpochTicks: int := 116444736000000000

  /** Ticks in one second. */
  const TicksPerSecond: int := 10000000

  /** 2^32: the range of one DWORD. */
  const Word: int := 0x1_0000_0000

  /** Unix seconds to ticks; exact on whole seconds. */
  function ToTicks(ts: int): int {
    ts * TicksPerSecond + UnixEpochTicks
  }

  /** Ticks back to whole Unix seconds, rounding down. */
  function TicksToSeconds(ticks: int): int {
    (ticks - UnixEpochTicks) / TicksPerSecond
  }

  /** The two DWORD fields of a FILETIME structure. */
  datatype FileTimeWords = FileTimeWords(low: nat, high: nat)

  /** `low = ticks & 0xFFFFFFFF` and `high = ticks >> 32`, each stored into
      a 32-bit DWORD field (which keeps the low 32 bits of what it is given).
      Python's `&` and `>>` on a negative int behave as Dafny's Euclidean `%`
      and `/` by a positive divisor. */
  function SplitTicks(ticks: int): (ft: FileTimeWords)
    ensures ft.low < Word && ft.high < Word
    ensures 0 <= ticks < Word * Word ==> ft.high * Word + ft.low == ticks
  {
    FileTimeWords(ticks % Word, (ticks / Word) % Word)
  }

  /** The 64-bit tick count the OS reads from the two words. */
  function Combine(ft: FileTimeWords): int {
    ft.high * Word + ft.low
  }

  /** Splitting and recombining loses exactly the bits above 64. */
  lemma CombineSplit(ticks: int)
    ensures Combine(SplitTicks(ticks)) == ticks % (Word * Word)
  {
    var q := ticks / Word;
    var lo := ticks % Word;
    var hi := q % Word;
    assert ticks == q * Word + lo;
    assert q == (q / Word) * Word + hi;
    assert ticks == (q / Word) * (Word * Word) + (hi * Word + lo);
    assert 0 <= hi * Word + lo < Word * Word;
  }

  /** The conversion is strictly monotone: later seconds, later ticks. */
  lemma ToTicksMonotone(a: int, b: int)
    ensures a < b <==> ToTicks(a) < ToTicks(b)
  {
  }

  /** Ticks read back as the seconds they were made from. */
  lemma TicksRoundTrip(ts: int)
    ensures TicksToSeconds(ToTicks(ts)) == ts
  {
    assert ToTicks(ts) - UnixEpochTicks == ts * TicksPerSecond;
  }

  /** Every moment from 1601-01-01 on whose tick count fits 64 bits
      survives the word split unchanged. */
  lemma RepresentableTicks(ts: int)
    requires 0 <= ToTicks(ts) < Word * Word
    ensures Combine(SplitTicks(ToTicks(ts))) == ToTicks(ts)
  {
    CombineSplit(ToTicks(ts));
  }
}
