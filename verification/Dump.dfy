/** The diagnostic dump, written with strncat into a buffer of fixed length. */
module Dump {
  import opened CStrings
  import opened HwCheck

  const BAR := "==============="
  const HEADER := BAR + " Daemon Info " + BAR + "==========\n"
  const COLUMNS := "Name\t\t\tis_hw_handler\t\t\tcur_hw\n"
  const TABS := "\t\t\t"
  const MGMT_HEADER := BAR + " Mgmt_intf Info " + BAR + "===========\n"

  function Digits(n: nat): string {
    if n < 10 then [('0' as int + n) as char] else Digits(n / 10) + [('0' as int + n % 10) as char]
  }

  /** "%d" and "%ld". */
  function Decimal(n: int): string {
    if n < 0 then "-" + Digits(-n) else Digits(n)
  }

  function Numbers(d: Daemon): string {
    TABS + Decimal(if d.isHw then 1 else 0) + TABS + Decimal(d.curHw) + "\n"
  }

  function Line(d: Daemon): string {
    d.name + Numbers(d)
  }

  function Lines(ds: seq<Daemon>): string {
    if ds == [] then "" else Lines(ds[..|ds| - 1]) + Line(ds[|ds| - 1])
  }

  /** The report without any limit; it lists as many daemons, from the first, as there are hardware
      daemons. */
  function Report(ds: seq<Daemon>, numHw: nat, mgmtIntf: string): string
    requires numHw <= |ds|
  {
    HEADER + COLUMNS + Lines(ds[..numHw]) + MGMT_HEADER + mgmtIntf + "\n"
  }

  // ----- what the report says

  /** The number a string of decimal digits stands for. */
  function NumberOf(s: string): int {
    if s == [] then 0 else 10 * NumberOf(s[..|s| - 1]) + s[|s| - 1] as int - 48
  }

  /** s is n in decimal digits, without leading zeros. */
  ghost predicate Writes(s: string, n: nat) {
    && s != [] && NumberOf(s) == n
    && (forall i :: 0 <= i < |s| ==> 48 <= s[i] as int <= 57)
    && (|s| > 1 ==> s[0] != '0')
  }

  lemma {:induction false} DigitsMean(n: nat)
    ensures Writes(Digits(n), n)
    ensures n > 0 ==> Digits(n)[0] != '0'
  {
    if n >= 10 {
      DigitsMean(n / 10);
      var d := Digits(n);
      assert d[..|d| - 1] == Digits(n / 10);
    } else {
      assert Digits(n)[..0] == [];
    }
  }

  lemma DecimalMeans(n: int)
    ensures if n >= 0 then Writes(Decimal(n), n)
            else Decimal(n) != [] && Decimal(n)[0] == '-' && Writes(Decimal(n)[1..], -n)
  {
    DigitsMean(if n < 0 then -n else n);
  }

  /** One line for each daemon: its name, whether it is a hardware handler, and its cur_hw. */
  lemma LinesMean(ds: seq<Daemon>, d: Daemon)
    ensures Lines([]) == ""
    ensures Lines(ds + [d]) == Lines(ds)
            + (d.name + ("\t\t\t" + (if d.isHw then "1" else "0") + "\t\t\t" + Decimal(d.curHw) + "\n"))
  {
    assert (ds + [d])[..|ds|] == ds;
    assert Decimal(1) == "1" && Decimal(0) == "0";
  }

  function Bar(n: nat): (s: string)
    ensures |s| == n && forall i :: 0 <= i < n ==> s[i] == '='
  {
    seq(n, _ => '=')
  }

  lemma HeadersMean()
    ensures HEADER == Bar(15) + " Daemon Info " + Bar(25) + "\n"
    ensures MGMT_HEADER == Bar(15) + " Mgmt_intf Info " + Bar(26) + "\n"
    ensures COLUMNS == "Name\t\t\tis_hw_handler\t\t\tcur_hw\n"
  {
    assert BAR == Bar(15);
    assert Bar(15) + "==========\n" == Bar(25) + "\n";
    assert Bar(15) + "===========\n" == Bar(26) + "\n";
    Regroup(Bar(15) + " Daemon Info ", Bar(15), "==========\n", Bar(25), "\n");
    Regroup(Bar(15) + " Mgmt_intf Info ", Bar(15), "===========\n", Bar(26), "\n");
  }

  lemma Regroup(a: string, b: string, c: string, d: string, e: string)
    requires b + c == d + e
    ensures a + b + c == a + d + e
  {
    assert a + b + c == a + (b + c);
    assert a + d + e == a + (d + e);
  }

  /** The report: both headers, the columns, the lines of as many daemons, from the first, as there are
      hardware daemons, and the interface. */
  lemma ReportMeans(ds: seq<Daemon>, numHw: nat, mgmtIntf: string)
    requires numHw <= |ds|
    ensures Report(ds, numHw, mgmtIntf)
         == (Bar(15) + " Daemon Info " + Bar(25) + "\n") + "Name\t\t\tis_hw_handler\t\t\tcur_hw\n"
            + Lines(ds[..numHw])
            + (Bar(15) + " Mgmt_intf Info " + Bar(26) + "\n") + mgmtIntf + "\n"
  {
    HeadersMean();
  }

  // ----- no NUL inside the report

  lemma {:induction false} NoNulInDigits(n: nat)
    ensures '\0' !in Digits(n)
  {
    if n >= 10 {
      NoNulInDigits(n / 10);
    }
  }

  lemma NoNulInDecimal(n: int)
    ensures '\0' !in Decimal(n)
  {
    NoNulInDigits(if n < 0 then -n else n);
  }

  // ----- which daemons the report lists

  function HwOnly(ds: seq<Daemon>): seq<Daemon> {
    if ds == [] then []
    else HwOnly(ds[..|ds| - 1]) + if ds[|ds| - 1].isHw then [ds[|ds| - 1]] else []
  }

  lemma {:induction false} HwOnlyIsHw(ds: seq<Daemon>)
    ensures |HwOnly(ds)| == CountHw(ds) <= |ds|
    ensures forall d :: d in HwOnly(ds) ==> d.isHw
  {
    if ds != [] {
      HwOnlyIsHw(ds[..|ds| - 1]);
    }
  }

  lemma {:induction false} HwFirst(ds: seq<Daemon>, k: nat)
    requires k <= |ds| && CountHw(ds) <= k && forall i :: 0 <= i < k ==> ds[i].isHw
    ensures HwOnly(ds) == ds[..k]
    decreases |ds|
  {
    if ds != [] {
      var rest, last := ds[..|ds| - 1], ds[|ds| - 1];
      if k == |ds| {
        HwFirst(rest, k - 1);
        assert rest[..k - 1] == rest && ds[..k] == rest + [last];
      } else {
        HwFirst(rest, k);
        HwOnlyIsHw(rest);
        assert rest[..k] == ds[..k];
        assert |HwOnly(rest)| == k && !last.isHw;
      }
    }
  }

  /** The report lists exactly the hardware daemons if and only if they come first in the manifest. */
  lemma ListsHwDaemonsIffTheyComeFirst(ds: seq<Daemon>)
    ensures CountHw(ds) <= |ds|
    ensures ds[..CountHw(ds)] == HwOnly(ds) <==> forall i :: 0 <= i < CountHw(ds) ==> ds[i].isHw
  {
    HwOnlyIsHw(ds);
    if forall i :: 0 <= i < CountHw(ds) ==> ds[i].isHw {
      HwFirst(ds, CountHw(ds));
    }
    if ds[..CountHw(ds)] == HwOnly(ds) {
      forall i | 0 <= i < CountHw(ds)
        ensures ds[i].isHw
      {
        assert HwOnly(ds)[i] == ds[i];
      }
    }
  }

  // ----- the buffer

  lemma NoNulInHeaders()
    ensures '\0' !in HEADER && '\0' !in COLUMNS && '\0' !in MGMT_HEADER
  {
    assert '\0' !in BAR;
  }

  /** A report cut off, appended to and cut off again is the longer report cut off. */
  lemma CutAppend(r: string, s: string, n: nat)
    ensures Cut(Cut(r, n) + s, n) == Cut(r + s, n)
  {
  }

  /** strncat with the room the buffer has left: the buffer goes on holding the beginning of the
      report, as much of it as fits. */
  method Append(buf: array<char>, ghost n: nat, s: string, ghost r: string) returns (ghost n': nat)
    requires Terminated(buf, n) && buf[..n] == Cut(r, buf.Length - 1) && '\0' !in s
    modifies buf
    ensures Terminated(buf, n') && buf[..n'] == Cut(r + s, buf.Length - 1)
  {
    var length := StrLen(buf, n, 0);
    var room := buf.Length - 1 - length;
    var i := 0;
    while i < |s| && i < room
      invariant 0 <= i <= |s| && i <= room
      invariant forall j :: 0 <= j < length ==> buf[j] == old(buf[j])
      invariant forall j :: 0 <= j < i ==> buf[length + j] == s[j]
    {
      buf[length + i] := s[i];
      i := i + 1;
    }
    buf[length + i] := '\0';
    n' := length + i;
    assert forall j :: 0 <= j < i ==> s[j] in s;
    assert buf[..n'] == old(buf[..n]) + s[..i] == Cut(old(buf[..n]) + s, buf.Length - 1);
    CutAppend(r, s, buf.Length - 1);
  }

  /** The rest of a daemon's line: the tag, the counter and the white space. */
  method DumpNumbers(buf: array<char>, ghost n: nat, d: Daemon, ghost r: string) returns (ghost n': nat)
    requires Terminated(buf, n) && buf[..n] == Cut(r, buf.Length - 1)
    modifies buf
    ensures Terminated(buf, n') && buf[..n'] == Cut(r + Numbers(d), buf.Length - 1)
  {
    var hw, cur := Decimal(if d.isHw then 1 else 0), Decimal(d.curHw);
    NoNulInDecimal(if d.isHw then 1 else 0);
    NoNulInDecimal(d.curHw);
    n' := Append(buf, n, TABS, r);
    n' := Append(buf, n', hw, r + TABS);
    n' := Append(buf, n', TABS, r + TABS + hw);
    n' := Append(buf, n', cur, r + TABS + hw + TABS);
    n' := Append(buf, n', "\n", r + TABS + hw + TABS + cur);
    assert r + TABS + hw + TABS + cur + "\n" == r + Numbers(d);
  }

  /** The header, which is copied without regard to the room, and the column names. */
  method DumpHeader(buf: array<char>) returns (ghost n: nat)
    requires |HEADER| < buf.Length
    modifies buf
    ensures Terminated(buf, n) && buf[..n] == Cut(HEADER + COLUMNS, buf.Length - 1)
  {
    buf[0] := '\0';
    NoNulInHeaders();
    n := Append(buf, 0, HEADER, "");
    n := Append(buf, n, COLUMNS, HEADER);
  }

  /** sysd_dump: the buffer ends up with the beginning of the report, as much as it can hold. */
  method SysdDump(buf: array<char>, ds: seq<Daemon>, numHw: nat, mgmtIntf: string) returns (ghost n: nat)
    requires |HEADER| < buf.Length
    requires numHw <= |ds|
    requires '\0' !in mgmtIntf && forall d :: d in ds ==> '\0' !in d.name
    modifies buf
    ensures var report, room := Report(ds, numHw, mgmtIntf), buf.Length - 1;
            Terminated(buf, n) && buf[..n] == if |report| > room then report[..room] else report
  {
    n := DumpHeader(buf);
    NoNulInHeaders();
    ghost var r := HEADER + COLUMNS;
    assert r + Lines(ds[..0]) == r;
    var i := 0;
    while numHw - 1 >= i
      invariant 0 <= i <= numHw
      invariant Terminated(buf, n) && buf[..n] == Cut(r + Lines(ds[..i]), buf.Length - 1)
      decreases numHw - i
    {
      LinesStep(ds, i, r);
      n := Append(buf, n, ds[i].name, r + Lines(ds[..i]));
      n := DumpNumbers(buf, n, ds[i], r + Lines(ds[..i]) + ds[i].name);
      i := i + 1;
    }
    r := r + Lines(ds[..numHw]);
    n := Append(buf, n, MGMT_HEADER, r);
    n := Append(buf, n, mgmtIntf, r + MGMT_HEADER);
    n := Append(buf, n, "\n", r + MGMT_HEADER + mgmtIntf);
  }

  lemma LinesStep(ds: seq<Daemon>, i: nat, r: string)
    requires i < |ds|
    ensures (r + Lines(ds[..i]) + ds[i].name) + Numbers(ds[i]) == r + Lines(ds[..i + 1])
  {
    assert ds[..i + 1][..i] == ds[..i];
    FourParts(r, Lines(ds[..i]), ds[i].name, Numbers(ds[i]));
  }

  lemma FourParts(a: string, b: string, c: string, d: string)
    ensures (a + b + c) + d == a + (b + (c + d))
  {
  }
}
