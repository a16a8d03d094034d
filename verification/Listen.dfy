/** `listen_parse` of src/listen.c: a backward scan for `host:NNNN-NNNN`. Strings
    are the contents of C strings, without the final NUL. */
module Listen {
  import opened Geometry

  const SPICE_URI_PREFIX := "spice://"
  const SPICE_UNIX_URI_PREFIX := "spice+unix://"

  /** What is to be listened on; a port of -1 was not given. */
  datatype Address = Unix(path: string) | Tcp(addr: Option<string>, start: int, end: int)

  datatype Result = Ok(address: Address) | ParseError

  predicate IsSpace(c: char) {
    c == ' ' || ('\t' <= c <= '\r')
  }

  predicate IsDigit(c: char) {
    '0' <= c <= '9'
  }

  predicate IsPortChar(c: char) {
    IsDigit(c) || c == '-'
  }

  predicate AllDigits(s: string) {
    forall i :: 0 <= i < |s| ==> IsDigit(s[i])
  }

  predicate DigitsIn(s: string, i: nat, j: nat)
    requires j <= |s|
  {
    forall x :: i <= x < j ==> IsDigit(s[x])
  }

  predicate AllSpaces(s: string) {
    forall i :: 0 <= i < |s| ==> IsSpace(s[i])
  }

  /* ---------- strtol with base 0, into an int ---------- */

  const LONG_MAX: int := 0x7FFF_FFFF_FFFF_FFFF

  /** How many leading characters are digits of the base. */
  function DigitCount(s: string, octal: bool): (n: nat)
    ensures n <= |s| && AllDigits(s[..n])
  {
    if s == "" || !IsDigit(s[0]) || (octal && s[0] > '7') then 0
    else
      var n := DigitCount(s[1..], octal);
      assert forall i :: 0 <= i < n ==> s[i + 1] == s[1..][..n][i];
      1 + n
  }

  function Value(ds: string, octal: bool): nat
    requires AllDigits(ds)
  {
    if ds == "" then 0
    else
      var front, digit := Value(ds[..|ds| - 1], octal), (ds[|ds| - 1] - '0') as nat;
      if octal then 8 * front + digit else 10 * front + digit
  }

  function ToInt(v: int): (r: int)
    ensures -0x8000_0000 <= r < 0x8000_0000
    ensures 0 <= v < 0x8000_0000 ==> r == v
  {
    (v + 0x8000_0000) % 0x1_0000_0000 - 0x8000_0000
  }

  /** `strtol(s, NULL, 0)` stored in an int, for an `s` that starts with a digit and
      is not hexadecimal: a leading zero means octal. */
  function ReadPort(s: string): int {
    var octal := s != "" && s[0] == '0';
    var v := Value(s[..DigitCount(s, octal)], octal);
    ToInt(if v > LONG_MAX then LONG_MAX else v)
  }

  /* ---------- what a specification means ---------- */

  predicate StartsWith(s: string, prefix: string) {
    |prefix| <= |s| && s[..|prefix|] == prefix
  }

  function TrimEnd(s: string): (t: string)
    ensures |t| <= |s| && t == s[..|t|]
    ensures forall j :: |t| <= j < |s| ==> IsSpace(s[j])
    ensures t != "" ==> !IsSpace(t[|t| - 1])
  {
    if s != "" && IsSpace(s[|s| - 1]) then TrimEnd(s[..|s| - 1]) else s
  }

  /** Where the digits and hyphens at the end of `t` start. */
  function TailStart(t: string): (k: nat)
    ensures k <= |t| && (k > 0 ==> !IsPortChar(t[k - 1]))
    ensures forall j :: k <= j < |t| ==> IsPortChar(t[j])
  {
    if t != "" && IsPortChar(t[|t| - 1]) then TailStart(t[..|t| - 1]) else |t|
  }

  /** The position of the last hyphen of `t[k..n]`. */
  function LastHyphen(t: string, k: nat, n: nat): (h: Option<nat>)
    requires n <= |t|
    ensures h.Some? ==> k <= h.value < n && t[h.value] == '-' && forall j :: h.value < j < n ==> t[j] != '-'
    ensures h.None? ==> forall j :: k <= j < n ==> t[j] != '-'
  {
    if n <= k then None
    else if t[n - 1] == '-' then Some(n - 1)
    else LastHyphen(t, k, n - 1)
  }

  /** The ports that the digits and hyphens from `k` on stand for, if they are well
      formed: none, one number, or two numbers with a hyphen between them. */
  function Ports(t: string, k: nat): Option<(int, int)>
    requires k <= |t|
  {
    match LastHyphen(t, k, |t|)
    case None => Some((-1, if k == |t| then -1 else ReadPort(t[k..])))
    case Some(h) =>
      if h == k || h + 1 == |t| || LastHyphen(t, k, h).Some? then None
      else Some((ReadPort(t[k..h]), ReadPort(t[h + 1..])))
  }

  /** A specification without a URI prefix: blanks at the end do not count, then
      come the ports, then a colon unless nothing or a single character is left,
      then the address. */
  function ParseTcp(s: string): Result {
    var t := TrimEnd(s);
    var k := TailStart(t);
    var colon := k > 1 && s[k - 1] == ':';
    var n := if colon then k - 1 else k;
    match Ports(t, k)
    case None => ParseError
    case Some((start, end)) =>
      if k < |t| && k > 1 && !colon then ParseError
      else Ok(Tcp(if n == 0 then None else Some(s[..n]), start, end))
  }

  function Parse(spec: string): Result {
    if StartsWith(spec, SPICE_UNIX_URI_PREFIX) then Ok(Unix(spec[|SPICE_UNIX_URI_PREFIX|..]))
    else if StartsWith(spec, SPICE_URI_PREFIX) then ParseTcp(spec[|SPICE_URI_PREFIX|..])
    else ParseTcp(spec)
  }

  /* ---------- the scan ---------- */

  lemma {:induction false} DigitCountStops(a: string, b: string, octal: bool)
    requires AllDigits(a) && (b == "" || !IsDigit(b[0]))
    ensures DigitCount(a + b, octal) == DigitCount(a, octal)
  {
    if a == "" {
      assert a + b == b;
    } else {
      DigitCountStops(a[1..], b, octal);
      assert (a + b)[1..] == a[1..] + b;
    }
  }

  /** What follows the number does not matter. */
  lemma ReadPortStops(a: string, b: string)
    requires a != "" && AllDigits(a) && (b == "" || !IsDigit(b[0]))
    ensures ReadPort(a + b) == ReadPort(a)
  {
    var octal := a[0] == '0';
    DigitCountStops(a, b, octal);
    var n := DigitCount(a, octal);
    assert (a + b)[..n] == a[..n];
  }

  /** The state of the scan when `s[..n]` is still to be looked at: `t` is the trimmed
      text, `h` where its hyphen was found. */
  ghost predicate Scanned(s: string, n: nat, t: string, h: Option<nat>, leading: nat, trailing: nat,
    hyphen: nat, end: int) {
    && n <= |s| && t == TrimEnd(s)
    && (h.None? ==> hyphen == 0 && leading == 0 && end == -1)
    && (h.None? && trailing == 0 ==> TrimEnd(s[..n]) == t)
    && (h.None? && trailing > 0 ==> n + trailing == |t| && DigitsIn(t, n, |t|))
    && (h.Some? ==>
          && hyphen == 1 && n + leading == h.value && h.value + 1 + trailing == |t|
          && DigitsIn(t, n, h.value) && t[h.value] == '-' && DigitsIn(t, h.value + 1, |t|)
          && end == if trailing > 0 then ReadPort(t[h.value + 1..]) else -1)
  }

  method ListenParse(spec: string) returns (r: Result)
    ensures r == Parse(spec)
  {
    if StartsWith(spec, SPICE_UNIX_URI_PREFIX) {
      return Ok(Unix(spec[|SPICE_UNIX_URI_PREFIX|..]));
    }
    if StartsWith(spec, SPICE_URI_PREFIX) {
      r := ScanSpec(spec[|SPICE_URI_PREFIX|..]);
    } else {
      r := ScanSpec(spec);
    }
  }

  method ScanSpec(s: string) returns (r: Result)
    ensures r == ParseTcp(s)
  {
    var leading, trailing, hyphen := 0, 0, 0;
    var end := -1;
    ghost var t := TrimEnd(s);
    ghost var h: Option<nat> := None;
    var p := |s| - 1;
    assert s[..p + 1] == s;
    while p >= 0
      invariant -1 <= p < |s| && Scanned(s, p + 1, t, h, leading, trailing, hyphen, end)
    {
      if IsSpace(s[p]) && hyphen == 0 && trailing == 0 {
        ScanSpace(s, p, t, h, leading, end);
        p := p - 1;
        continue;
      }
      if s[p] != '-' && !IsDigit(s[p]) {
        break;
      }
      if s[p] == '-' {
        if hyphen > 0 {
          TwoHyphens(s, p, t, h.value);
          return ParseError;
        }
        ScanHyphen(s, p, t, h, leading, trailing, end);
        hyphen := hyphen + 1;
        if trailing > 0 {
          end := ReadPort(s[p + 1..]);
        }
        h := Some(p);
      } else {
        ScanDigit(s, p, t, h, leading, trailing, hyphen, end);
        if hyphen > 0 {
          leading := leading + 1;
        } else {
          trailing := trailing + 1;
        }
      }
      p := p - 1;
    }
    r := FinishScan(s, p, leading, trailing, hyphen, end, t, h);
  }

  /** The ports, read after the loop. */
  method ReadPorts(s: string, stop: int, leading: nat, trailing: nat, hyphen: nat, portEnd: int,
    ghost t: string, ghost h: nat)
    returns (ports: Option<(int, int)>)
    requires -1 <= stop < |s| && Counted(s, stop + 1, t, h, leading, trailing, hyphen, portEnd)
    ensures ports == Ports(t, stop + 1)
    ensures ports.Some? ==> (stop + 1 < |t| <==> leading > 0 || trailing > 0)
  {
    var start, end := -1, portEnd;
    if leading > 0 && hyphen > 0 {
      start := ReadPort(s[stop + 1..]);
      ReadAtEnd(s, t, stop + 1, h);
    }
    if trailing > 0 && hyphen == 0 {
      end := ReadPort(s[stop + 1..]);
      ReadAtEnd(s, t, stop + 1, |t|);
    }
    if hyphen > 0 && (leading == 0 || trailing == 0) {
      return None;
    }
    return Some((start, end));
  }

  /** What `listen_parse` does after the loop. */
  method FinishScan(s: string, stop: int, leading: nat, trailing: nat, hyphen: nat, portEnd: int,
    ghost t: string, ghost h: Option<nat>)
    returns (r: Result)
    requires -1 <= stop < |s| && Scanned(s, stop + 1, t, h, leading, trailing, hyphen, portEnd)
    requires stop >= 0 ==> !IsPortChar(s[stop]) && (IsSpace(s[stop]) ==> hyphen > 0 || trailing > 0)
    ensures r == ParseTcp(s)
  {
    var p := stop;
    ghost var at := ScanCounts(s, stop + 1, t, h, leading, trailing, hyphen, portEnd);
    var ports := ReadPorts(s, stop, leading, trailing, hyphen, portEnd, t, at);
    if ports.None? {
      return ParseError;
    }
    if leading > 0 || trailing > 0 {
      if p > 0 && s[p] != ':' {
        return ParseError;
      }
    }
    if p > 0 && s[p] == ':' {
      p := p - 1;
    }
    var len := p + 1;
    return Ok(Tcp(if len > 0 then Some(s[..len]) else None, ports.value.0, ports.value.1));
  }

  lemma ScanSpace(s: string, p: nat, t: string, h: Option<nat>, leading: nat, end: int)
    requires p < |s| && Scanned(s, p + 1, t, h, leading, 0, 0, end) && IsSpace(s[p])
    ensures Scanned(s, p, t, h, leading, 0, 0, end)
  {
    assert s[..p + 1][..p] == s[..p];
  }

  lemma ScanDigit(s: string, p: nat, t: string, h: Option<nat>, leading: nat, trailing: nat, hyphen: nat, end: int)
    requires p < |s| && Scanned(s, p + 1, t, h, leading, trailing, hyphen, end) && IsDigit(s[p])
    ensures hyphen > 0 ==> Scanned(s, p, t, h, leading + 1, trailing, hyphen, end)
    ensures hyphen == 0 ==> Scanned(s, p, t, h, leading, trailing + 1, hyphen, end)
  {
  }

  lemma ScanHyphen(s: string, p: nat, t: string, h: Option<nat>, leading: nat, trailing: nat, end: int)
    requires p < |s| && Scanned(s, p + 1, t, h, leading, trailing, 0, end) && s[p] == '-'
    ensures Scanned(s, p, t, Some(p), leading, trailing, 1, if trailing > 0 then ReadPort(s[p + 1..]) else end)
  {
    if trailing > 0 {
      ReadAtEnd(s, t, p + 1, |t|);
    }
  }

  /** A number that stands in the trimmed text between `i` and `j`, read where it
      starts in the whole text. */
  lemma ReadAtEnd(s: string, t: string, i: nat, j: nat)
    requires |t| <= |s| && t == s[..|t|] && (|t| < |s| ==> !IsDigit(s[|t|]))
    requires i < j <= |t| && DigitsIn(t, i, j) && (j < |t| ==> t[j] == '-')
    ensures ReadPort(s[i..]) == ReadPort(t[i..j])
    ensures j == |t| ==> t[i..j] == t[i..]
  {
    assert s[i..] == t[i..j] + s[j..];
    ReadPortStops(t[i..j], s[j..]);
  }

  lemma TailStartIs(t: string, k: nat)
    requires k <= |t| && (k > 0 ==> !IsPortChar(t[k - 1])) && forall j :: k <= j < |t| ==> IsPortChar(t[j])
    ensures TailStart(t) == k
  {
    var m := TailStart(t);
    var atK := k > 0 && IsPortChar(t[k - 1]);
    var atM := m > 0 && IsPortChar(t[m - 1]);
    assert !atK && !atM && (m < k ==> atK) && (k < m ==> atM);
  }

  lemma LastHyphenIs(t: string, k: nat, n: nat, h: nat)
    requires k <= h < n <= |t| && t[h] == '-' && forall j :: h < j < n ==> t[j] != '-'
    ensures LastHyphen(t, k, n) == Some(h)
  {
    assert t[h] == '-';
  }

  lemma TwoHyphens(s: string, p: nat, t: string, h: nat)
    requires t == TrimEnd(s) && p < h < |t| && t[p] == '-' && t[h] == '-'
    requires DigitsIn(t, p + 1, h) && DigitsIn(t, h + 1, |t|)
    ensures ParseTcp(s) == ParseError
  {
    var k := TailStart(t);
    assert forall j :: p <= j < |t| ==> IsPortChar(t[j]);
    assert k <= p;
    LastHyphenIs(t, k, |t|, h);
    assert LastHyphen(t, k, h).Some?;
  }

  /** Where the scan stops is where the tail starts. */
  lemma ScanEnds(s: string, n: nat, t: string, h: Option<nat>, leading: nat, trailing: nat, hyphen: nat, end: int)
    requires Scanned(s, n, t, h, leading, trailing, hyphen, end)
    requires n > 0 ==> !IsPortChar(s[n - 1]) && (IsSpace(s[n - 1]) ==> hyphen > 0 || trailing > 0)
    ensures n <= |t| && TailStart(t) == n
    ensures h.None? ==> LastHyphen(t, n, |t|) == None && (trailing == 0 ==> n == |t|)
    ensures h.Some? ==> LastHyphen(t, n, |t|) == h && LastHyphen(t, n, h.value) == None
  {
    if h.None? && trailing == 0 {
      assert TrimEnd(s[..n]) == s[..n];
    }
    TailStartIs(t, n);
    if h.Some? {
      LastHyphenIs(t, n, |t|, h.value);
    }
  }

  /** What the counters say about the tail when the scan has stopped at `n`. */
  ghost predicate Counted(s: string, n: nat, t: string, h: nat, leading: nat, trailing: nat, hyphen: nat, end: int) {
    && n <= |t| <= |s| && t == s[..|t|] && (|t| < |s| ==> !IsDigit(s[|t|]))
    && (hyphen == 0 ==> leading == 0 && end == -1 && (trailing > 0 <==> n < |t|) && DigitsIn(t, n, |t|))
    && (hyphen == 0 ==> Ports(t, n) == Some((-1, if trailing == 0 then -1 else ReadPort(t[n..]))))
    && (hyphen > 0 ==> h == n + leading < |t| && DigitsIn(t, n, h) && t[h] == '-')
    && (hyphen > 0 ==>
          Ports(t, n) == if leading == 0 || trailing == 0 then None else Some((ReadPort(t[n..h]), end)))
  }

  lemma ScanCounts(s: string, n: nat, t: string, h: Option<nat>, leading: nat, trailing: nat, hyphen: nat,
    end: int) returns (at: nat)
    requires Scanned(s, n, t, h, leading, trailing, hyphen, end)
    requires n > 0 ==> !IsPortChar(s[n - 1]) && (IsSpace(s[n - 1]) ==> hyphen > 0 || trailing > 0)
    ensures Counted(s, n, t, at, leading, trailing, hyphen, end) && TailStart(t) == n
  {
    at := if h.Some? then h.value else 0;
    ScanEnds(s, n, t, h, leading, trailing, hyphen, end);
    if h.Some? {
      HyphenCounted(s, n, t, h.value, leading, trailing, end);
    }
  }

  lemma HyphenCounted(s: string, n: nat, t: string, h: nat, leading: nat, trailing: nat, end: int)
    requires t == TrimEnd(s) && n <= h < |t| && LastHyphen(t, n, |t|) == Some(h) && LastHyphen(t, n, h) == None
    requires n + leading == h && h + 1 + trailing == |t| && DigitsIn(t, n, h)
    requires end == if trailing > 0 then ReadPort(t[h + 1..]) else -1
    ensures Counted(s, n, t, h, leading, trailing, 1, end)
  {
  }

  /* ---------- round trips ---------- */

  predicate Number(ds: string) {
    ds != "" && AllDigits(ds)
  }

  predicate HasPrefix(s: string) {
    StartsWith(s, SPICE_URI_PREFIX) || StartsWith(s, SPICE_UNIX_URI_PREFIX)
  }

  /** A text that ends with a port character is its own trimmed text. */
  lemma PortTail(s: string, k: nat)
    requires k < |s| && (k > 0 ==> !IsPortChar(s[k - 1])) && forall j :: k <= j < |s| ==> IsPortChar(s[j])
    ensures TrimEnd(s) == s && TailStart(s) == k
  {
    assert IsPortChar(s[|s| - 1]);
    TailStartIs(s, k);
  }

  /** An address before a colon and a digit hides no prefix. */
  lemma NoPrefix(addr: string, ds: string)
    requires !HasPrefix(addr) && Number(ds)
    ensures !HasPrefix(addr + ":" + ds)
  {
    NotThisPrefix(addr, ds, SPICE_URI_PREFIX);
    NotThisPrefix(addr, ds, SPICE_UNIX_URI_PREFIX);
  }

  lemma NotThisPrefix(addr: string, rest: string, prefix: string)
    requires !StartsWith(addr, prefix) && rest != "" && IsDigit(rest[0])
    requires |prefix| > 0 && prefix[|prefix| - 1] == '/'
    requires forall i :: 0 <= i < |prefix| - 1 && prefix[i] == ':' ==> prefix[i + 1] == '/'
    ensures !StartsWith(addr + ":" + rest, prefix)
  {
    var s, n := addr + ":" + rest, |addr|;
    assert s[n] == ':' && s[n + 1] == rest[0] && s[..n] == addr;
    if |prefix| <= n {
      assert s[..|prefix|] == addr[..|prefix|];
    } else {
      PrefixAt(s, prefix, n);
      assert n + 1 < |prefix| ==> prefix[n] == ':' ==> prefix[n + 1] == '/';
      if n + 1 < |prefix| <= |s| {
        PrefixAt(s, prefix, n + 1);
      }
    }
  }

  lemma PrefixAt(s: string, prefix: string, i: nat)
    requires i < |prefix| && i < |s|
    ensures StartsWith(s, prefix) ==> s[i] == prefix[i]
  {
    var front := s[..if |prefix| <= |s| then |prefix| else |s|];
    assert front[i] == s[i];
  }

  lemma {:induction false} NoHyphen(t: string, k: nat, n: nat)
    requires n <= |t| && forall j :: k <= j < n ==> t[j] != '-'
    ensures LastHyphen(t, k, n) == None
  {
    if k >= n {
    } else {
      NoHyphen(t, k, n - 1);
    }
  }

  /** What is left of the text before the ports. */
  function AddressBefore(front: string): Option<string> {
    if front == "" then None
    else if |front| == 1 then Some(front)
    else Some(front[..|front| - 1])
  }

  lemma TcpIs(s: string, front: string, start: int, end: int)
    requires |front| < |s| && s[..|front|] == front && (front != "" ==> front[|front| - 1] == ':')
    requires TrimEnd(s) == s && TailStart(s) == |front| && Ports(s, |front|) == Some((start, end))
    ensures ParseTcp(s) == Ok(Tcp(AddressBefore(front), start, end))
  {
    FrontOf(s, front);
  }

  lemma FrontOf(s: string, front: string)
    requires |front| <= |s| && s[..|front|] == front
    ensures front != "" ==> s[|front| - 1] == front[|front| - 1]
    ensures |front| > 1 ==> s[..|front| - 1] == front[..|front| - 1]
  {
    var last := if front != "" then s[..|front|][|front| - 1] else ':';
    assert front != "" ==> last == s[|front| - 1];
  }

  lemma RangePorts(s: string, k: nat, h: nat)
    requires k < h && h + 1 < |s| && s[h] == '-' && DigitsIn(s, k, h) && DigitsIn(s, h + 1, |s|)
    ensures Ports(s, k) == Some((ReadPort(s[k..h]), ReadPort(s[h + 1..])))
  {
    LastHyphenIs(s, k, |s|, h);
    NoHyphen(s, k, h);
  }

  lemma RangeTail(s: string, k: nat, h: nat)
    requires k < h && h + 1 < |s| && s[h] == '-' && DigitsIn(s, k, h) && DigitsIn(s, h + 1, |s|)
    requires k > 0 ==> !IsPortChar(s[k - 1])
    ensures TrimEnd(s) == s && TailStart(s) == k
  {
    PortTail(s, k);
  }

  lemma TcpOfRange(s: string, front: string, d1: string, d2: string, h: nat)
    requires front != "" ==> front[|front| - 1] == ':'
    requires |front| < h && h + 1 < |s| && s[..|front|] == front && s[|front|..h] == d1 && s[h + 1..] == d2 &&
      s[h] == '-'
    requires DigitsIn(s, |front|, h) && DigitsIn(s, h + 1, |s|)
    ensures ParseTcp(s) == Ok(Tcp(AddressBefore(front), ReadPort(d1), ReadPort(d2)))
  {
    FrontOf(s, front);
    RangePorts(s, |front|, h);
    RangeTail(s, |front|, h);
    TcpIs(s, front, ReadPort(d1), ReadPort(d2));
  }

  lemma TcpRange(front: string, d1: string, d2: string)
    requires Number(d1) && Number(d2) && (front != "" ==> front[|front| - 1] == ':')
    ensures ParseTcp(front + (d1 + "-" + d2)) == Ok(Tcp(AddressBefore(front), ReadPort(d1), ReadPort(d2)))
  {
    RangePlaced(front, d1, d2);
    TcpOfRange(front + (d1 + "-" + d2), front, d1, d2, |front| + |d1|);
  }

  lemma RangePlaced(front: string, d1: string, d2: string)
    requires AllDigits(d1) && AllDigits(d2)
    ensures var s, k := front + (d1 + "-" + d2), |front|; var h := k + |d1|;
      s[..k] == front && s[k..h] == d1 && s[h + 1..] == d2 && s[h] == '-' && DigitsIn(s, k, h) &&
        DigitsIn(s, h + 1, |s|)
  {
    var s, k := front + (d1 + "-" + d2), |front|;
    var h := k + |d1|;
    assert s[k..h] == d1 && s[h + 1..] == d2 && s[h + 1..|s|] == d2;
    DigitsAt(s, k, h, d1);
    DigitsAt(s, h + 1, |s|, d2);
  }

  lemma DigitsAt(s: string, i: nat, j: nat, ds: string)
    requires i <= j <= |s| && s[i..j] == ds && AllDigits(ds)
    ensures DigitsIn(s, i, j)
  {
    forall x | i <= x < j
      ensures IsDigit(s[x])
    {
      assert s[x] == ds[x - i];
    }
  }

  lemma OnePort(s: string, k: nat)
    requires k < |s| && DigitsIn(s, k, |s|) && (k > 0 ==> !IsPortChar(s[k - 1]))
    ensures Ports(s, k) == Some((-1, ReadPort(s[k..]))) && TrimEnd(s) == s && TailStart(s) == k
  {
    NoHyphen(s, k, |s|);
    PortTail(s, k);
  }

  lemma TcpPort(front: string, ds: string)
    requires Number(ds) && (front != "" ==> front[|front| - 1] == ':')
    ensures ParseTcp(front + ds) == Ok(Tcp(AddressBefore(front), -1, ReadPort(ds)))
  {
    var s, k := front + ds, |front|;
    assert s[k..] == ds && s[k..|s|] == ds;
    DigitsAt(s, k, |s|, ds);
    OnePort(s, k);
    assert s[..k] == front;
    TcpIs(s, front, -1, ReadPort(ds));
  }

  /** A port is refused exactly when it is not set off by a colon from the text
      before it, unless that text is a single character. */
  lemma PortRefusedIff(front: string, ds: string)
    requires Number(ds) && (front != "" ==> !IsPortChar(front[|front| - 1]))
    ensures ParseTcp(front + ds) == ParseError <==> |front| > 1 && front[|front| - 1] != ':'
  {
    var s, k := front + ds, |front|;
    assert s[k..] == ds && s[k..|s|] == ds;
    DigitsAt(s, k, |s|, ds);
    OnePort(s, k);
    RefusedIff(s, front);
  }

  lemma RefusedIff(s: string, front: string)
    requires |front| < |s| && s[..|front|] == front
    requires TrimEnd(s) == s && TailStart(s) == |front| && Ports(s, |front|).Some?
    ensures ParseTcp(s) == ParseError <==> |front| > 1 && front[|front| - 1] != ':'
  {
    FrontOf(s, front);
  }

  /** The same for a range. */
  lemma RangeRefusedIff(front: string, d1: string, d2: string)
    requires Number(d1) && Number(d2) && (front != "" ==> !IsPortChar(front[|front| - 1]))
    ensures ParseTcp(front + (d1 + "-" + d2)) == ParseError <==> |front| > 1 && front[|front| - 1] != ':'
  {
    var s, k := front + (d1 + "-" + d2), |front|;
    RangePlaced(front, d1, d2);
    RangeIsRefused(s, front, k + |d1|);
  }

  lemma RangeIsRefused(s: string, front: string, h: nat)
    requires front != "" ==> !IsPortChar(front[|front| - 1])
    requires |front| < h && h + 1 < |s| && s[..|front|] == front && s[h] == '-'
    requires DigitsIn(s, |front|, h) && DigitsIn(s, h + 1, |s|)
    ensures ParseTcp(s) == ParseError <==> |front| > 1 && front[|front| - 1] != ':'
  {
    FrontOf(s, front);
    RangePorts(s, |front|, h);
    RangeTail(s, |front|, h);
    RefusedIff(s, front);
  }

  /** A port with a leading zero is octal. */
  lemma OctalPort()
    ensures Parse("host:010") == Ok(Tcp(Some("host"), -1, 8))
  {
    ReadOctal();
    PortRoundTrip("host", "010");
    assert "host" + ":" + "010" == "host:010";
  }

  lemma ReadOctal()
    ensures ReadPort("010") == 8
  {
    var ds := "010";
    assert ds[1..] == "10" && ds[1..][1..] == "0";
    assert DigitCount("10", true) == 2 && DigitCount(ds, true) == 3;
    assert ds[..2] == "01" && ds[..3] == ds && "01"[..1] == "0" && "0"[..0] == "";
    assert Value("01", true) == 1;
  }

  /** A single character that is neither a digit nor a hyphen is taken as the address. */
  lemma OneCharacterAddress(c: char, ds: string)
    requires Number(ds) && !IsPortChar(c)
    ensures ParseTcp([c] + ds) == Ok(Tcp(Some([c]), -1, ReadPort(ds)))
  {
    var s := [c] + ds;
    assert s[1..] == ds && s[1..|s|] == ds && s[..1] == [c];
    DigitsAt(s, 1, |s|, ds);
    OnePort(s, 1);
  }

  /** `addr:start-end` gives exactly these three. */
  lemma RangeRoundTrip(addr: string, d1: string, d2: string)
    requires addr != "" && !HasPrefix(addr) && Number(d1) && Number(d2)
    ensures Parse(addr + ":" + d1 + "-" + d2) == Ok(Tcp(Some(addr), ReadPort(d1), ReadPort(d2)))
    ensures !HasPrefix(addr + ":" + d1 + "-" + d2)
  {
    var rest := d1 + "-" + d2;
    assert addr + ":" + d1 + "-" + d2 == (addr + ":") + rest;
    NotThisPrefix(addr, rest, SPICE_URI_PREFIX);
    NotThisPrefix(addr, rest, SPICE_UNIX_URI_PREFIX);
    TcpRange(addr + ":", d1, d2);
    assert (addr + ":")[..|addr|] == addr;
  }

  /** `addr:port` gives the address and the port as the end of an open range. */
  lemma PortRoundTrip(addr: string, ds: string)
    requires addr != "" && !HasPrefix(addr) && Number(ds)
    ensures Parse(addr + ":" + ds) == Ok(Tcp(Some(addr), -1, ReadPort(ds))) && !HasPrefix(addr + ":" + ds)
  {
    NoPrefix(addr, ds);
    TcpPort(addr + ":", ds);
    assert (addr + ":")[..|addr|] == addr;
  }

  lemma NoPrefixAfterColon(s: string)
    requires s != "" && s[0] == ':'
    ensures !HasPrefix(s)
  {
  }

  /** With no host before the colon the colon itself becomes the address. */
  lemma EmptyHostKeepsColon(ds: string)
    requires Number(ds)
    ensures Parse(":" + ds) == Ok(Tcp(Some(":"), -1, ReadPort(ds)))
  {
    TcpPort(":", ds);
    NoPrefixAfterColon(":" + ds);
  }

  lemma {:induction false} TrimBlanks(s: string, blanks: string)
    requires AllSpaces(blanks)
    ensures TrimEnd(s + blanks) == TrimEnd(s)
  {
    if blanks == "" {
      assert s + blanks == s;
    } else {
      var n := |blanks| - 1;
      TrimBlanks(s, blanks[..n]);
      assert (s + blanks)[..|s| + n] == s + blanks[..n];
    }
  }

  lemma TcpBlanks(s: string, blanks: string)
    requires AllSpaces(blanks)
    ensures ParseTcp(s + blanks) == ParseTcp(s)
  {
    TrimBlanks(s, blanks);
    var k := TailStart(TrimEnd(s));
    assert (s + blanks)[..k] == s[..k];
    if k > 0 {
      assert (s + blanks)[..k - 1] == s[..k - 1];
    }
  }

  /** Blanks at the end do not matter, except in a Unix socket path. */
  lemma BlanksIgnored(spec: string, blanks: string)
    requires AllSpaces(blanks) && !StartsWith(spec, SPICE_UNIX_URI_PREFIX)
    ensures Parse(spec + blanks) == Parse(spec)
  {
    PrefixBeforeBlanks(spec, blanks, SPICE_UNIX_URI_PREFIX);
    PrefixBeforeBlanks(spec, blanks, SPICE_URI_PREFIX);
    var n := |SPICE_URI_PREFIX|;
    if StartsWith(spec, SPICE_URI_PREFIX) {
      TcpBlanks(spec[n..], blanks);
      assert (spec + blanks)[n..] == spec[n..] + blanks;
    } else {
      TcpBlanks(spec, blanks);
    }
  }

  lemma PrefixBeforeBlanks(spec: string, blanks: string, prefix: string)
    requires AllSpaces(blanks) && prefix != "" && !IsSpace(prefix[|prefix| - 1])
    ensures StartsWith(spec + blanks, prefix) == StartsWith(spec, prefix)
  {
    if |prefix| <= |spec| {
      assert (spec + blanks)[..|prefix|] == spec[..|prefix|];
    } else if |prefix| <= |spec + blanks| {
      PrefixAt(spec + blanks, prefix, |prefix| - 1);
      assert (spec + blanks)[|prefix| - 1] == blanks[|prefix| - 1 - |spec|];
    }
  }

  /** `spice://` in front of a specification without a prefix changes nothing. */
  lemma UriPrefixIgnored(spec: string)
    requires !HasPrefix(spec)
    ensures Parse(SPICE_URI_PREFIX + spec) == Parse(spec)
  {
    var s := SPICE_URI_PREFIX + spec;
    assert s[..|SPICE_URI_PREFIX|] == SPICE_URI_PREFIX && s[|SPICE_URI_PREFIX|..] == spec;
    PrefixAt(s, SPICE_UNIX_URI_PREFIX, 5);
  }

  /* ---------- which numbers are read as decimals ---------- */

  /** The decimal digits of a number. */
  function Decimal(n: nat): (ds: string)
    ensures Number(ds) && (ds[0] == '0' ==> n == 0)
  {
    var digit := ['0' + (n % 10) as char];
    if n < 10 then digit else Decimal(n / 10) + digit
  }

  lemma {:induction false} DecimalValue(n: nat)
    ensures Value(Decimal(n), false) == n
  {
    var ds := Decimal(n);
    if n >= 10 {
      DecimalValue(n / 10);
      assert ds[..|ds| - 1] == Decimal(n / 10);
    } else {
      assert Value("", false) == 0;
      assert ds[..0] == "";
    }
  }

  lemma {:induction false} AllCounted(ds: string)
    requires AllDigits(ds)
    ensures DigitCount(ds, false) == |ds|
  {
    if ds == "" {
    } else {
      AllCounted(ds[1..]);
    }
  }

  lemma {:induction false} OctalCounted(ds: string)
    requires AllDigits(ds)
    ensures var c := DigitCount(ds, true);
      (forall i :: 0 <= i < c ==> ds[i] <= '7') && (c < |ds| ==> ds[c] > '7')
  {
    if ds == "" || ds[0] > '7' {
    } else {
      OctalCounted(ds[1..]);
      assert forall i :: 0 < i < |ds| ==> ds[i] == ds[1..][i - 1];
    }
  }

  lemma {:induction false} PrefixValue(ds: string, c: nat)
    requires AllDigits(ds) && c <= |ds|
    ensures AllDigits(ds[..c]) && Value(ds[..c], false) <= Value(ds, false)
  {
    if c < |ds| {
      var front := ds[..|ds| - 1];
      PrefixValue(front, c);
      assert front[..c] == ds[..c];
    } else {
      assert ds[..c] == ds;
    }
  }

  /** Read in octal, a number of octal digits is smaller, unless it has one
      significant digit. */
  lemma {:induction false} OctalDigits(ds: string)
    requires AllDigits(ds) && forall i :: 0 <= i < |ds| ==> ds[i] <= '7'
    ensures var o, v := Value(ds, true), Value(ds, false);
      if v < 8 then o == v else o < v
  {
    if ds == "" {
    } else {
      OctalDigits(ds[..|ds| - 1]);
    }
  }

  lemma OctalIsSmaller(ds: string)
    requires AllDigits(ds)
    ensures var o, v := Value(ds[..DigitCount(ds, true)], true), Value(ds, false);
      if v < 8 then o == v else o < v
  {
    var c := DigitCount(ds, true);
    OctalCounted(ds);
    OctalDigits(ds[..c]);
    if c < |ds| {
      PrefixValue(ds, c + 1);
      assert ds[..c + 1][..c] == ds[..c];
    } else {
      assert ds[..c] == ds;
    }
  }

  /** A number is read as the decimal it looks like exactly when it fits in an int
      and has no leading zero, or is a single significant octal digit. */
  lemma ReadAsDecimalIff(ds: string)
    requires Number(ds)
    ensures ReadPort(ds) == Value(ds, false) <==>
      Value(ds, false) < 0x8000_0000 && (ds[0] != '0' || Value(ds, false) < 8)
  {
    if ds[0] == '0' {
      OctalIsSmaller(ds);
    } else {
      AllCounted(ds);
      assert ds[..|ds|] == ds;
    }
  }

  /** The whole round trip of a range with canonical decimal ports in int range,
      with or without `spice://` in front and blanks behind. */
  lemma CanonicalRange(addr: string, start: nat, end: nat, blanks: string)
    requires addr != "" && !HasPrefix(addr) && start < 0x8000_0000 && end < 0x8000_0000 && AllSpaces(blanks)
    ensures var spec := addr + ":" + Decimal(start) + "-" + Decimal(end);
      Parse(spec + blanks) == Parse(SPICE_URI_PREFIX + spec) == Ok(Tcp(Some(addr), start, end))
  {
    var d1, d2 := Decimal(start), Decimal(end);
    DecimalPort(start);
    DecimalPort(end);
    RangeRoundTrip(addr, d1, d2);
    BlanksIgnored(addr + ":" + d1 + "-" + d2, blanks);
    UriPrefixIgnored(addr + ":" + d1 + "-" + d2);
  }

  /** The whole round trip of a single port. */
  lemma CanonicalPort(addr: string, port: nat, blanks: string)
    requires addr != "" && !HasPrefix(addr) && port < 0x8000_0000 && AllSpaces(blanks)
    ensures var spec := addr + ":" + Decimal(port);
      Parse(spec + blanks) == Parse(SPICE_URI_PREFIX + spec) == Ok(Tcp(Some(addr), -1, port))
  {
    DecimalPort(port);
    PortRoundTrip(addr, Decimal(port));
    BlanksIgnored(addr + ":" + Decimal(port), blanks);
    UriPrefixIgnored(addr + ":" + Decimal(port));
  }

  lemma DecimalPort(n: nat)
    requires n < 0x8000_0000
    ensures ReadPort(Decimal(n)) == n
  {
    DecimalValue(n);
    ReadAsDecimalIff(Decimal(n));
  }

  /** The blanks are those of the C locale. */
  lemma IsSpaceIs(c: char)
    ensures IsSpace(c) <==> c as int in {0x20, 0x09, 0x0A, 0x0B, 0x0C, 0x0D}
  {
  }

  /* ---------- the other forms of a specification ---------- */

  /** A Unix socket path is taken as it stands. */
  lemma UnixPath(path: string)
    ensures Parse(SPICE_UNIX_URI_PREFIX + path) == Ok(Unix(path))
  {
    var s := SPICE_UNIX_URI_PREFIX + path;
    assert s[..|SPICE_UNIX_URI_PREFIX|] == SPICE_UNIX_URI_PREFIX && s[|SPICE_UNIX_URI_PREFIX|..] == path;
  }

  /** Nothing but blanks is no address and no port. */
  lemma BlankSpecification(blanks: string)
    requires AllSpaces(blanks)
    ensures ParseTcp(blanks) == Ok(Tcp(None, -1, -1))
  {
    TrimBlanks("", blanks);
    assert "" + blanks == blanks;
    assert TrimEnd("") == "";
  }

  /** A text that ends in neither a blank, a port character nor a colon is an address
      without ports; a colon behind it is dropped. */
  lemma AddressAlone(addr: string)
    requires addr != "" && (var c := addr[|addr| - 1]; !IsSpace(c) && !IsPortChar(c) && c != ':')
    ensures ParseTcp(addr) == Ok(Tcp(Some(addr), -1, -1))
    ensures ParseTcp(addr + ":") == Ok(Tcp(Some(addr), -1, -1))
  {
    NoPorts(addr);
    NoPorts(addr + ":");
    assert addr[..|addr|] == addr && (addr + ":")[..|addr|] == addr;
  }

  lemma NoPorts(s: string)
    requires s != "" && !IsSpace(s[|s| - 1]) && !IsPortChar(s[|s| - 1])
    ensures TrimEnd(s) == s && TailStart(s) == |s| && Ports(s, |s|) == Some((-1, -1))
  {
  }

  /** A port or a range alone has no address. */
  lemma PortsAlone(d1: string, d2: string)
    requires Number(d1) && Number(d2)
    ensures ParseTcp(d1) == Ok(Tcp(None, -1, ReadPort(d1)))
    ensures ParseTcp(d1 + "-" + d2) == Ok(Tcp(None, ReadPort(d1), ReadPort(d2)))
  {
    TcpPort("", d1);
    TcpRange("", d1, d2);
    assert "" + d1 == d1 && "" + (d1 + "-" + d2) == d1 + "-" + d2;
  }

  /** A hyphen needs a number on both sides. */
  lemma HyphenNeedsNumbers(front: string, d1: string, d2: string)
    requires AllDigits(d1) && AllDigits(d2) && (d1 == "" || d2 == "")
    requires front != "" ==> !IsPortChar(front[|front| - 1])
    ensures ParseTcp(front + (d1 + "-" + d2)) == ParseError
  {
    var s, k := front + (d1 + "-" + d2), |front|;
    RangePlaced(front, d1, d2);
    HalfRange(s, k, k + |d1|);
  }

  lemma HalfRange(s: string, k: nat, h: nat)
    requires k <= h < |s| && s[h] == '-' && DigitsIn(s, k, h) && DigitsIn(s, h + 1, |s|)
    requires k > 0 ==> !IsPortChar(s[k - 1])
    requires h == k || h + 1 == |s|
    ensures ParseTcp(s) == ParseError
  {
    PortTail(s, k);
    LastHyphenIs(s, k, |s|, h);
  }

  /* ---------- which number is read ---------- */

  /** The octal digits of a number. */
  function Octal(n: nat): (ds: string)
    ensures ds != "" && forall i :: 0 <= i < |ds| ==> '0' <= ds[i] <= '7'
  {
    var digit := ['0' + (n % 8) as char];
    if n < 8 then digit else Octal(n / 8) + digit
  }

  lemma {:induction false} OctalValue(n: nat)
    ensures Value(Octal(n), true) == n
  {
    var ds := Octal(n);
    if n < 8 {
      assert Value("", true) == 0;
      assert ds[..0] == "";
    } else {
      OctalValue(n / 8);
      assert ds[..|ds| - 1] == Octal(n / 8);
    }
  }

  lemma {:induction false} AllOctalCounted(ds: string)
    requires forall i :: 0 <= i < |ds| ==> '0' <= ds[i] <= '7'
    ensures DigitCount(ds, true) == |ds|
  {
    if ds == "" {
    } else {
      AllOctalCounted(ds[1..]);
    }
  }

  /** After a leading zero octal digits are read as octal. */
  lemma OctalRead(n: nat)
    requires n < 0x8000_0000
    ensures ReadPort("0" + Octal(n)) == n
  {
    var ds := "0" + Octal(n);
    AllOctalCounted(ds);
    assert ds[..|ds|] == ds;
    OctalValue(n);
    LeadingZero(Octal(n));
  }

  lemma {:induction false} LeadingZero(ds: string)
    requires AllDigits(ds)
    ensures AllDigits("0" + ds) && Value("0" + ds, true) == Value(ds, true)
  {
    if ds == "" {
      assert "0" + ds == "0" && "0"[..0] == "";
      assert Value("0"[..0], true) == 0;
    } else {
      var n := |ds| - 1;
      LeadingZero(ds[..n]);
      assert ("0" + ds)[..|ds|] == "0" + ds[..n];
    }
  }

  lemma ToIntIs(v: int)
    ensures -0x8000_0000 <= ToInt(v) < 0x8000_0000 && (v - ToInt(v)) % 0x1_0000_0000 == 0
    ensures ToInt(LONG_MAX) == -1
  {
  }

  lemma ReadDecimal(ds: string)
    requires Number(ds) && ds[0] != '0'
    ensures var v := Value(ds, false); ReadPort(ds) == ToInt(if v > LONG_MAX then LONG_MAX else v)
  {
    AllCounted(ds);
    assert ds[..|ds|] == ds;
  }

  /** A decimal that does not fit wraps around in the int, and one that does not fit in
      a long is read as -1. */
  lemma DecimalWraps(n: nat)
    requires n > 0
    ensures var r := ReadPort(Decimal(n));
      -0x8000_0000 <= r < 0x8000_0000 && if n <= LONG_MAX then (n - r) % 0x1_0000_0000 == 0 else r == -1
  {
    DecimalValue(n);
    ReadDecimal(Decimal(n));
    ToIntIs(n);
  }
}
