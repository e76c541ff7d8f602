/**
 * Device name order.  The daemon compares names as text; the library numbers drives
 * (0 is a, 25 is z, 26 is aa) and names them with `guestfs___drive_name`.
 */
module DeviceNames {
  import opened Wrappers
  import opened Seqs
  import opened Sort
  import opened Decimals

  // ---------- drive letters as numbers

  predicate Letter(c: char) { 'a' <= c <= 'z' }

  predicate Letters(s: string) { s != "" && forall i :: 0 <= i < |s| ==> Letter(s[i]) }

  function LetterAt(k: nat): (c: char)
    requires k < 26
    ensures Letter(c) && c as int - 'a' as int == k
  {
    ('a' as int + k) as char
  }

  /** guestfs___drive_name */
  function DriveName(index: nat): (s: string)
    ensures Letters(s)
  {
    (if index >= 26 then DriveName(index / 26 - 1) else "") + [LetterAt(index % 26)]
  }

  /** Bijective base 26: one more than the drive's index. */
  function Number(s: string): int {
    if s == "" then 0 else 26 * Number(s[..|s| - 1]) + (s[|s| - 1] as int - 'a' as int + 1)
  }

  lemma {:induction false} NumberOfName(index: nat)
    ensures Number(DriveName(index)) == index + 1
  {
    var s := DriveName(index);
    if index >= 26 {
      NumberOfName(index / 26 - 1);
      assert s[..|s| - 1] == DriveName(index / 26 - 1);
    } else {
      assert s[..|s| - 1] == "";
    }
  }

  lemma {:induction false} NameOfNumber(s: string)
    requires Letters(s)
    ensures Number(s) >= 1 && DriveName(Number(s) - 1) == s
  {
    var n := |s| - 1;
    var k := s[n] as int - 'a' as int;
    assert s == s[..n] + [s[n]] && LetterAt(k) == s[n];
    if n == 0 {
      assert s[..n] == "";
    } else {
      NameOfNumber(s[..n]);
      var m := Number(s[..n]);
      assert (26 * m + k) / 26 == m && (26 * m + k) % 26 == k;
    }
  }

  // ---------- shorter is smaller, then letter by letter

  /** strncmp on strings of the same length. */
  function StrCmp(a: string, b: string): int
    requires |a| == |b|
  {
    if a == "" then 0
    else if a[0] != b[0] then a[0] as int - b[0] as int
    else StrCmp(a[1..], b[1..])
  }

  lemma {:induction false} StrCmpSnoc(a: string, b: string, x: char, y: char)
    requires |a| == |b|
    ensures StrCmp(a + [x], b + [y]) == if StrCmp(a, b) != 0 then StrCmp(a, b) else x as int - y as int
  {
    if a != "" {
      StrCmpSnoc(a[1..], b[1..], x, y);
      assert (a + [x])[1..] == a[1..] + [x] && (b + [y])[1..] == b[1..] + [y];
    } else {
      assert a + [x] == [x] && b + [y] == [y];
      assert [x][1..] == "" && [y][1..] == "";
    }
  }

  function Sign(n: int): int { if n < 0 then -1 else if n > 0 then 1 else 0 }

  lemma {:induction false} SameLengthOrder(a: string, b: string)
    requires |a| == |b| && (forall i :: 0 <= i < |a| ==> Letter(a[i])) && (forall i :: 0 <= i < |b| ==> Letter(b[i]))
    ensures Sign(StrCmp(a, b)) == Sign(Number(a) - Number(b))
  {
    if a != "" {
      var n := |a| - 1;
      SameLengthOrder(a[..n], b[..n]);
      StrCmpSnoc(a[..n], b[..n], a[n], b[n]);
      assert a == a[..n] + [a[n]] && b == b[..n] + [b[n]];
      var p, q, x, y := Number(a[..n]), Number(b[..n]), a[n] as int - 'a' as int + 1, b[n] as int - 'a' as int + 1;
      assert 1 <= x <= 26 && 1 <= y <= 26;
      if p < q {
        assert 26 * p + x < 26 * q + y;
      } else if p > q {
        assert 26 * p + x > 26 * q + y;
      }
    }
  }

  /** The number of "aa...a". */
  function Least(n: nat): int { if n == 0 then 0 else 26 * Least(n - 1) + 1 }

  lemma {:induction false} NumberRange(s: string)
    requires forall i :: 0 <= i < |s| ==> Letter(s[i])
    ensures Least(|s|) <= Number(s) < Least(|s| + 1)
  {
    if s != "" {
      NumberRange(s[..|s| - 1]);
    }
  }

  lemma {:induction false} LeastMonotone(m: nat, n: nat)
    requires m <= n
    ensures 0 <= Least(m) <= Least(n)
    decreases n
  {
    if m < n {
      LeastMonotone(m, n - 1);
    } else if m > 0 {
      LeastMonotone(m - 1, n - 1);
    }
  }

  lemma {:induction false} ShorterIsSmaller(a: string, b: string)
    requires |a| < |b| && (forall i :: 0 <= i < |a| ==> Letter(a[i])) && (forall i :: 0 <= i < |b| ==> Letter(b[i]))
    ensures Number(a) < Number(b)
  {
    NumberRange(a);
    NumberRange(b);
    LeastMonotone(|a| + 1, |b|);
  }

  // ---------- compare_device_names

  /** strcspn: the length of the part before the first character in `reject`. */
  function Strcspn(s: string, reject: string): (n: nat)
    ensures n <= |s|
  {
    if s == "" || s[0] in reject then 0 else 1 + Strcspn(s[1..], reject)
  }

  lemma {:induction false} StrcspnAt(a: string, b: string, reject: string)
    requires (forall i :: 0 <= i < |a| ==> a[i] !in reject) && (b == "" || b[0] in reject)
    ensures Strcspn(a + b, reject) == |a|
  {
    if a == "" {
      assert a + b == b;
    } else {
      assert (a + b)[1..] == a[1..] + b;
      StrcspnAt(a[1..], b, reject);
    }
  }

  const DIGITS: string := "0123456789"

  /** The digits at the start of a string. */
  function DigitSpan(s: string): (n: nat)
    ensures n <= |s|
  {
    if s == "" || !Digit(s[0]) then 0 else 1 + DigitSpan(s[1..])
  }

  function SkipDev(s: string): string { if "/dev/" <= s then s[5..] else s }

  /** The result of a comparison, a failed assertion, or a pointer moved beyond the end of a string. */
  datatype Cmp = Value(n: int) | Abort | PastEnd

  /** compare_device_names */
  function Compare(a: string, b: string): Cmp {
    var s, t := SkipDev(a), SkipDev(b);
    if !PrefixAsserted(s) || !PrefixAsserted(t) then Abort
    else
      var p, q := AfterPrefix(s), AfterPrefix(t);
      if p.None? || q.None? then PastEnd else CompareRest(p.value, q.value)
  }

  predicate PrefixAsserted(s: string) { 0 < Strcspn(s, "d") <= 2 }

  /** What follows sd, hd, ubd or vd; a name without any d is overrun. */
  function AfterPrefix(s: string): Option<string> {
    var n := Strcspn(s, "d");
    if n < |s| then Some(s[n + 1..]) else None
  }

  function CompareRest(a: string, b: string): Cmp {
    var alen, blen := Strcspn(a, DIGITS), Strcspn(b, DIGITS);
    if alen != blen then Value(alen - blen)
    else
      var r := StrCmp(a[..alen], b[..blen]);
      if r != 0 then Value(r) else ComparePartitions(a[alen..], b[blen..])
  }

  /** Each string is empty or starts with a digit, so sscanf fails exactly on an empty one. */
  function ComparePartitions(p: string, q: string): Cmp {
    if p == "" && q == "" then Value(0)
    else if p == "" || q == "" then Abort
    else Value(Decimal(p[..DigitSpan(p)]) - Decimal(q[..DigitSpan(q)]))
  }

  // ---------- when the daemon aborts, for any two strings

  /** Without "/dev/": a d in second or third place and none in first; or one or two characters that are no d. */
  predicate ShortPrefix(s: string) {
    && s != "" && s[0] != 'd'
    && (|s| <= 2 || s[1] == 'd' || s[2] == 'd')
  }

  /** y is x, which holds no digit, followed by a digit and anything else. */
  predicate Numbered(x: string, y: string) {
    && (forall i :: 0 <= i < |x| ==> !Digit(x[i]))
    && |x| < |y| && x <= y && Digit(y[|x|])
  }

  lemma {:induction false} PrefixShape(s: string)
    ensures PrefixAsserted(s) <==> ShortPrefix(s)
  {
    if |s| >= 1 && s[0] != 'd' {
      assert Strcspn(s, "d") == 1 + Strcspn(s[1..], "d");
      if |s| >= 2 && s[1] != 'd' {
        assert Strcspn(s[1..], "d") == 1 + Strcspn(s[1..][1..], "d");
      }
    }
  }

  /** strcspn finds the first digit. */
  lemma {:induction false} FirstDigit(s: string)
    ensures var n := Strcspn(s, DIGITS);
            && (forall i :: 0 <= i < n ==> !Digit(s[i]))
            && (n < |s| ==> Digit(s[n]))
  {
    if s != "" {
      InDigits(s[0]);
      FirstDigit(s[1..]);
    }
  }

  lemma {:induction false} StrCmpZero(a: string, b: string)
    requires |a| == |b|
    ensures StrCmp(a, b) == 0 <==> a == b
  {
    if a != "" {
      StrCmpZero(a[1..], b[1..]);
      assert a == [a[0]] + a[1..] && b == [b[0]] + b[1..];
    }
  }

  lemma {:induction false} RestAborts(u: string, v: string)
    ensures CompareRest(u, v) == Abort <==> Numbered(u, v) || Numbered(v, u)
    ensures CompareRest(u, v) != PastEnd
  {
    var m, n := Strcspn(u, DIGITS), Strcspn(v, DIGITS);
    FirstDigit(u);
    FirstDigit(v);
    if m == n {
      StrCmpZero(u[..m], v[..n]);
      if u[..m] == v[..n] {
        SplitOff(u, m);
        SplitOff(v, n);
      }
    }
  }

  lemma {:induction false} SplitOff<T>(s: seq<T>, k: nat)
    requires k <= |s|
    ensures s[k..] == [] <==> k == |s|
    ensures k == |s| ==> s[..k] == s
  {
  }

  /**
   * For any two strings: an assertion fails exactly when the part before the d of one is not one or
   * two characters long, or when one of the two names is the other one and a number.  A pointer
   * leaves its string exactly for a name of one or two characters without a d.
   */
  lemma {:induction false} AbortsExactly(a: string, b: string)
    ensures var s, t := SkipDev(a), SkipDev(b);
            Compare(a, b) == Abort <==>
              || !ShortPrefix(s) || !ShortPrefix(t)
              || ('d' in s && 'd' in t &&
                  var u, v := AfterD(s), AfterD(t);
                  Numbered(u, v) || Numbered(v, u))
    ensures var s, t := SkipDev(a), SkipDev(b);
            Compare(a, b) == PastEnd <==> ShortPrefix(s) && ShortPrefix(t) && !('d' in s && 'd' in t)
  {
    var s, t := SkipDev(a), SkipDev(b);
    PrefixShape(s);
    PrefixShape(t);
    FirstD(s);
    FirstD(t);
    if AfterPrefix(s).Some? && AfterPrefix(t).Some? {
      RestAborts(AfterPrefix(s).value, AfterPrefix(t).value);
    }
  }

  /** What follows the first d. */
  function AfterD(s: string): string
    requires 'd' in s
  {
    if s[0] == 'd' then s[1..] else AfterD(s[1..])
  }

  lemma {:induction false} FirstD(s: string)
    ensures 'd' in s <==> AfterPrefix(s).Some?
    ensures 'd' in s ==> AfterPrefix(s) == Some(AfterD(s))
  {
    if s != "" && s[0] != 'd' {
      FirstD(s[1..]);
    }
  }

  // ---------- real device names

  /** An interface prefix, a drive number, and a partition number or none. */
  datatype Device = Device(dev: bool, prefix: string, drive: nat, part: Option<nat>)

  predicate Proper(x: Device) {
    && x.prefix in {"sd", "hd", "ubd", "vd"}
    && (x.part.Some? ==> x.part.value < 0x8000_0000)
  }

  function PartText(x: Device): string { if x.part.None? then "" else Print(x.part.value) }

  function PartNumber(x: Device): nat { if x.part.None? then 0 else x.part.value }

  lemma {:induction false} PartIsPrinted(x: Device)
    ensures PartText(x) == "" <==> x.part.None?
    ensures forall i :: 0 <= i < |PartText(x)| ==> Digit(PartText(x)[i])
    ensures Decimal(PartText(x)) == PartNumber(x)
  {
    if x.part.Some? {
      PrintedScansBack(x.part.value);
    }
  }

  function Text(x: Device): string {
    (if x.dev then "/dev/" else "") + (x.prefix + (DriveName(x.drive) + PartText(x)))
  }

  predicate AlikePartitioned(x: Device, y: Device) { x.part.None? == y.part.None? }

  /** By drive number, then by partition number. */
  function Order(x: Device, y: Device): int {
    if x.drive != y.drive then Sign(x.drive - y.drive) else Sign(PartNumber(x) - PartNumber(y))
  }

  lemma {:induction false} SkipDevText(x: Device)
    requires Proper(x)
    ensures SkipDev(Text(x)) == x.prefix + (DriveName(x.drive) + PartText(x))
  {
    var body := x.prefix + (DriveName(x.drive) + PartText(x));
    if x.dev {
      Drop("/dev/", body);
      assert "/dev/" <= "/dev/" + body;
    } else {
      assert "" + body == body;
      assert body[0] == x.prefix[0] != '/';
    }
  }

  lemma {:induction false} PrefixIsSkipped(x: Device)
    requires Proper(x)
    ensures PrefixAsserted(SkipDev(Text(x)))
    ensures AfterPrefix(SkipDev(Text(x))) == Some(DriveName(x.drive) + PartText(x))
  {
    SkipDevText(x);
    BeforeD(x.prefix, DriveName(x.drive) + PartText(x));
  }

  lemma {:induction false} BeforeD(prefix: string, rest: string)
    requires prefix in {"sd", "hd", "ubd", "vd"}
    ensures PrefixAsserted(prefix + rest) && AfterPrefix(prefix + rest) == Some(rest)
  {
    var n := |prefix| - 1;
    assert prefix == prefix[..n] + "d";
    Concat(prefix[..n], "d", rest);
    assert ("d" + rest)[0] == 'd';
    StrcspnAt(prefix[..n], "d" + rest, "d");
    Drop(prefix, rest);
  }

  lemma {:induction false} RestAgrees(a: string, p: string, b: string, q: string)
    requires Letters(a) && Letters(b) && (p == "") == (q == "")
    requires (forall i :: 0 <= i < |p| ==> Digit(p[i])) && (forall i :: 0 <= i < |q| ==> Digit(q[i]))
    ensures var r := CompareRest(a + p, b + q);
            && r.Value?
            && Sign(r.n) == if Number(a) != Number(b) then Sign(Number(a) - Number(b))
                            else Sign(Decimal(p) - Decimal(q))
  {
    LettersEnd(a, p);
    LettersEnd(b, q);
    CompareLetters(a, p, b, q);
    LettersThenPartitions(a, p, b, q);
  }

  function LetterwiseCmp(a: string, p: string, b: string, q: string): Cmp {
    if LetterCmp(a, b) != 0 then Value(LetterCmp(a, b)) else ComparePartitions(p, q)
  }

  lemma {:induction false} LettersThenPartitions(a: string, p: string, b: string, q: string)
    requires Letters(a) && Letters(b) && (p == "") == (q == "")
    requires (forall i :: 0 <= i < |p| ==> Digit(p[i])) && (forall i :: 0 <= i < |q| ==> Digit(q[i]))
    ensures var r := LetterwiseCmp(a, p, b, q);
            && r.Value?
            && Sign(r.n) == if Number(a) != Number(b) then Sign(Number(a) - Number(b))
                            else Sign(Decimal(p) - Decimal(q))
  {
    LetterOrder(a, b);
    AllDigits(p);
    AllDigits(q);
  }

  lemma {:induction false} AllDigits(s: string)
    requires forall i :: 0 <= i < |s| ==> Digit(s[i])
    ensures DigitSpan(s) == |s| && s[..DigitSpan(s)] == s
  {
    if s != "" {
      AllDigits(s[1..]);
    }
  }

  /** What CompareRest looks at first. */
  function LetterCmp(a: string, b: string): int { if |a| != |b| then |a| - |b| else StrCmp(a, b) }

  lemma {:induction false} LetterOrder(a: string, b: string)
    requires Letters(a) && Letters(b)
    ensures Sign(LetterCmp(a, b)) == Sign(Number(a) - Number(b))
  {
    if |a| < |b| {
      ShorterIsSmaller(a, b);
    } else if |b| < |a| {
      ShorterIsSmaller(b, a);
    } else {
      SameLengthOrder(a, b);
    }
  }

  lemma {:induction false} CompareLetters(a: string, p: string, b: string, q: string)
    requires Strcspn(a + p, DIGITS) == |a| && Strcspn(b + q, DIGITS) == |b|
    ensures CompareRest(a + p, b + q) == LetterwiseCmp(a, p, b, q)
  {
    Halves(a, p);
    Halves(b, q);
  }

  lemma {:induction false} LettersEnd(a: string, p: string)
    requires Letters(a) && forall i :: 0 <= i < |p| ==> Digit(p[i])
    ensures Strcspn(a + p, DIGITS) == |a|
  {
    forall i | 0 <= i < |a| ensures a[i] !in DIGITS {
      InDigits(a[i]);
    }
    if p != "" {
      InDigits(p[0]);
    }
    StrcspnAt(a, p, DIGITS);
  }

  lemma {:induction false} InDigits(c: char)
    ensures c in DIGITS <==> Digit(c)
  {
    if Digit(c) {
      assert DIGITS[c as int - '0' as int] == c;
    }
  }

  lemma {:induction false} Halves<T>(a: seq<T>, b: seq<T>)
    ensures (a + b)[..|a|] == a && (a + b)[|a|..] == b
  {
  }

  /** Text comparison agrees with (drive number, partition number); in particular sdz comes before sdaa. */
  lemma {:induction false} CompareAgrees(x: Device, y: Device)
    requires Proper(x) && Proper(y) && AlikePartitioned(x, y)
    ensures Compare(Text(x), Text(y)).Value?
    ensures Sign(Compare(Text(x), Text(y)).n) == Order(x, y)
  {
    PrefixIsSkipped(x);
    PrefixIsSkipped(y);
    CompareOf(Text(x), Text(y), DriveName(x.drive) + PartText(x), DriveName(y.drive) + PartText(y));
    DrivesAgree(x, y);
  }

  lemma {:induction false} CompareOf(s: string, t: string, p: string, q: string)
    requires PrefixAsserted(SkipDev(s)) && PrefixAsserted(SkipDev(t))
    requires AfterPrefix(SkipDev(s)) == Some(p) && AfterPrefix(SkipDev(t)) == Some(q)
    ensures Compare(s, t) == CompareRest(p, q)
  {
  }

  lemma {:induction false} DrivesAgree(x: Device, y: Device)
    requires Proper(x) && Proper(y) && AlikePartitioned(x, y)
    ensures var r := CompareRest(DriveName(x.drive) + PartText(x), DriveName(y.drive) + PartText(y));
            r.Value? && Sign(r.n) == Order(x, y)
  {
    PartIsPrinted(x);
    PartIsPrinted(y);
    NumberOfName(x.drive);
    NumberOfName(y.drive);
    NamedAgree(x, DriveName(x.drive), PartText(x), y, DriveName(y.drive), PartText(y));
  }

  lemma {:induction false} NamedAgree(x: Device, a: string, p: string, y: Device, b: string, q: string)
    requires Letters(a) && Letters(b) && Number(a) == x.drive + 1 && Number(b) == y.drive + 1
    requires (forall i :: 0 <= i < |p| ==> Digit(p[i])) && (forall i :: 0 <= i < |q| ==> Digit(q[i]))
    requires (p == "") == (q == "") && Decimal(p) == PartNumber(x) && Decimal(q) == PartNumber(y)
    ensures var r := CompareRest(a + p, b + q); r.Value? && Sign(r.n) == Order(x, y)
  {
    RestAgrees(a, p, b, q);
  }

  /** On hard disk names: exactly for two names of one drive of which only one has a partition. */
  lemma {:induction false} DisksAbort(x: Device, y: Device)
    requires Proper(x) && Proper(y)
    ensures Compare(Text(x), Text(y)) == Abort <==> x.drive == y.drive && !AlikePartitioned(x, y)
  {
    if AlikePartitioned(x, y) {
      CompareAgrees(x, y);
    } else {
      PrefixIsSkipped(x);
      PrefixIsSkipped(y);
      CompareOf(Text(x), Text(y), DriveName(x.drive) + PartText(x), DriveName(y.drive) + PartText(y));
      UnlikeRest(x, y);
    }
  }

  lemma {:induction false} UnlikeRest(x: Device, y: Device)
    requires Proper(x) && Proper(y) && !AlikePartitioned(x, y)
    ensures CompareRest(DriveName(x.drive) + PartText(x), DriveName(y.drive) + PartText(y)) == Abort
       <==> x.drive == y.drive
  {
    var a, b := DriveName(x.drive), DriveName(y.drive);
    NumberOfName(x.drive);
    NumberOfName(y.drive);
    PartIsPrinted(x);
    PartIsPrinted(y);
    LettersEnd(a, PartText(x));
    LettersEnd(b, PartText(y));
    CompareLetters(a, PartText(x), b, PartText(y));
    LetterOrder(a, b);
  }

  // ---------- the list of devices that foreach_block_device sorts

  /** An entry of /sys/block: a hard disk, or a CD-ROM drive such as sr0. */
  datatype Block = Disk(x: Device) | Optical(number: nat)

  predicate Collected(b: Block) {
    match b
    case Disk(x) => Proper(x) && x.part.None?
    case Optical(_) => true
  }

  function BlockText(b: Block): string {
    match b
    case Disk(x) => Text(x)
    case Optical(number) => "/dev/" + ("sr" + Print(number))
  }

  lemma {:induction false} OpticalPrefix(number: nat)
    ensures !PrefixAsserted(SkipDev(BlockText(Optical(number))))
  {
    var digits := Print(number);
    var s := "sr" + digits;
    Drop("/dev/", s);
    assert "/dev/" <= "/dev/" + s;
    assert s[0] == 's' && s[1] == 'r' && s[2] == digits[0];
    PrefixShape(s);
  }

  /** Comparing two of them aborts the daemon exactly when one is a CD-ROM drive. */
  lemma {:induction false} CollectedAborts(x: Block, y: Block)
    requires Collected(x) && Collected(y)
    ensures Compare(BlockText(x), BlockText(y)) == Abort <==> x.Optical? || y.Optical?
  {
    if x.Optical? {
      OpticalPrefix(x.number);
    } else if y.Optical? {
      OpticalPrefix(y.number);
    } else {
      DisksAbort(x.x, y.x);
    }
  }

  /** Sorting meets a pair that aborts iff the list has two names or more and one of them is a CD-ROM drive. */
  lemma {:induction false} SortMayAbort(s: seq<Block>)
    requires forall b :: b in s ==> Collected(b)
    ensures (exists i, j :: 0 <= i < |s| && 0 <= j < |s| && i != j &&
                            Compare(BlockText(s[i]), BlockText(s[j])) == Abort)
       <==> |s| >= 2 && exists i :: 0 <= i < |s| && s[i].Optical?
  {
    forall i, j | 0 <= i < |s| && 0 <= j < |s|
      ensures Compare(BlockText(s[i]), BlockText(s[j])) == Abort <==> s[i].Optical? || s[j].Optical?
    {
      CollectedAborts(s[i], s[j]);
    }
    if i :| |s| >= 2 && 0 <= i < |s| && s[i].Optical? {
      var j := if i == 0 then 1 else 0;
      assert Compare(BlockText(s[i]), BlockText(s[j])) == Abort;
    }
  }

  lemma {:induction false} AbortExamples()
    ensures Compare("/dev/sda", "/dev/sr0") == Abort
    ensures Compare("/dev/sda", "/dev/sda1") == Abort
  {
    var sda, sda1 := Device(true, "sd", 0, None), Device(true, "sd", 0, Some(1));
    assert DriveName(0) == "a" && Print(0) == "0" && Print(1) == "1";
    assert Text(sda) == "/dev/sda" && Text(sda1) == "/dev/sda1";
    CollectedAborts(Disk(sda), Optical(0));
    assert BlockText(Optical(0)) == "/dev/sr0";
    DisksAbort(sda, sda1);
  }

  /** compare_device_names (a, b) <= 0, as qsort sees it on a list of devices. */
  predicate DeviceLe(x: Device, y: Device) {
    Compare(Text(x), Text(y)).Value? && Compare(Text(x), Text(y)).n <= 0
  }

  /** On names that all have, or all lack, a partition number the comparison is a total preorder. */
  lemma {:induction false} TotalOnAlike(x: Device, y: Device, z: Device)
    requires Proper(x) && Proper(y) && Proper(z) && AlikePartitioned(x, y) && AlikePartitioned(y, z)
    ensures DeviceLe(x, y) || DeviceLe(y, x)
    ensures DeviceLe(x, y) && DeviceLe(y, z) ==> DeviceLe(x, z)
  {
    LeIsOrder(x, y);
    LeIsOrder(y, x);
    LeIsOrder(y, z);
    LeIsOrder(x, z);
  }

  lemma {:induction false} LeIsOrder(x: Device, y: Device)
    requires Proper(x) && Proper(y) && AlikePartitioned(x, y)
    ensures DeviceLe(x, y) <==> Order(x, y) <= 0
  {
    CompareAgrees(x, y);
  }

  /** Whatever order qsort returns, drives come out in drive order and partitions in partition order. */
  lemma {:induction false} SortedByDrive(s: seq<Device>, t: seq<Device>, i: nat, j: nat)
    requires forall x :: x in s ==> Proper(x)
    requires forall x, y :: x in s && y in s ==> AlikePartitioned(x, y)
    requires SortOf(s, t, DeviceLe) && i < j < |t|
    ensures t[i].drive <= t[j].drive
    ensures t[i].drive == t[j].drive ==> PartNumber(t[i]) <= PartNumber(t[j])
  {
    PermutationHasSameElements(s, t, t[i]);
    PermutationHasSameElements(s, t, t[j]);
    assert DeviceLe(t[i], t[j]);
    LeIsOrder(t[i], t[j]);
  }
}
