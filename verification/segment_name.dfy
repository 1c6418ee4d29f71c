/** Segment file names (src/wal/segment_meta.cc; `isWal`, `parseWalName` in src/wal/log_manager.cc). */
module SegmentName {
  import opened Coding

  function Digit(d: nat): char
    requires d < 10
  {
    '0' + d as char
  }

  predicate IsDigit(c: char) {
    '0' <= c <= '9'
  }

  function Decimal(n: nat): (s: string)
    ensures |s| >= 1
  {
    if n < 10 then [Digit(n)] else Decimal(n / 10) + [Digit(n % 10)]
  }

  /** fmt::format("{}-{}.wal", segmentId, firstIdx) */
  function SegmentFileName(id: nat, start: nat): string {
    Decimal(id) + "-" + Decimal(start) + ".wal"
  }

  predicate IsWal(fname: string) {
    |fname| > 4 && fname[|fname| - 4..] == ".wal"
  }

  /** A decimal conversion of sscanf: the number read so far, and the input it stops at. */
  function Scan(s: string, acc: nat): (nat, string)
    decreases |s|
  {
    if s == [] || !IsDigit(s[0]) then (acc, s) else Scan(s[1..], acc * 10 + (s[0] - '0') as nat)
  }

  /** sscanf(fname, "%zu-%zu.wal", ...): None when a number is not assigned. */
  function ParseWalName(fname: string): Option<(nat, nat)> {
    if fname == [] || !IsDigit(fname[0]) then None
    else
      var (id, rest) := Scan(fname, 0);
      if |rest| < 2 || rest[0] != '-' || !IsDigit(rest[1]) then None
      else Some((id, Scan(rest[1..], 0).0))
  }

  lemma NameExample()
    ensures SegmentFileName(2, 14) == "2-14.wal"
  {
    assert Decimal(2) == "2" && Decimal(1) == "1" && 14 / 10 == 1 && 14 % 10 == 4;
    assert Decimal(14) == Decimal(1) + ['4'];
  }

  lemma {:induction false} ScanDecimal(n: nat, rest: string)
    ensures IsDigit(Decimal(n)[0])
    ensures Scan(Decimal(n) + rest, 0) == Scan(rest, n)
    decreases n
  {
    var last := Digit(n % 10);
    assert ([last] + rest)[1..] == rest && (last - '0') as nat == n % 10;
    if n < 10 {
      assert Decimal(n) + rest == [last] + rest;
    } else {
      assert Decimal(n) + rest == Decimal(n / 10) + ([last] + rest);
      ScanDecimal(n / 10, [last] + rest);
    }
  }

  /** The printed name passes isWal and parses back to the pair it was printed from. */
  lemma NameRoundTrip(id: nat, start: nat)
    ensures IsWal(SegmentFileName(id, start))
    ensures ParseWalName(SegmentFileName(id, start)) == Some((id, start))
  {
    var f := SegmentFileName(id, start);
    assert f[|f| - 4..] == ".wal";
    var tail := Decimal(start) + ".wal";
    assert f == Decimal(id) + ("-" + tail);
    ScanDecimal(id, "-" + tail);
    assert ("-" + tail)[1..] == tail;
    ScanDecimal(start, ".wal");
  }
}
