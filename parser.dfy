/**
 * The script reader: each kept line of the input becomes one Operation,
 * stamped with its position among the kept lines.
 *
 * A line is kept when its first character is a letter; the letter selects
 * the parser. Numbers are read as in the program: from just after a marker
 * character ('T', 'x' or '('), accumulating decimal digits until the first
 * non-digit. The end of the line acts as a non-digit.
 */
module Parser {

  import opened Records

  predicate IsDigit(ch: char) {
    '0' <= ch <= '9'
  }

  predicate IsAlpha(ch: char) {
    ('a' <= ch <= 'z') || ('A' <= ch <= 'Z')
  }

  predicate AllDigits(ds: string) {
    forall k :: 0 <= k < |ds| ==> IsDigit(ds[k])
  }

  /** The decimal value of a digit string, most significant digit first. */
  function Decimal(ds: string): (n: int)
    requires AllDigits(ds)
    ensures n >= 0
  {
    if ds == [] then 0
    else Decimal(ds[..|ds| - 1]) * 10 + (ds[|ds| - 1] as int - '0' as int)
  }

  /** The index just past the run of digits that starts at `i`. */
  function RunEnd(line: string, i: nat): (j: nat)
    requires i <= |line|
    ensures i <= j <= |line|
    ensures AllDigits(line[i..j])
    ensures j == |line| || !IsDigit(line[j])
    decreases |line| - i
  {
    if i < |line| && IsDigit(line[i]) then
      var j := RunEnd(line, i + 1);
      assert line[i..j] == [line[i]] + line[i + 1..j];
      j
    else i
  }

  /** The number whose digits start just after index `p`. */
  function NumberAfter(line: string, p: nat): (n: int)
    requires p < |line|
    ensures n >= 0
  {
    Decimal(line[p + 1..RunEnd(line, p + 1)])
  }

  /** `line.find(c)` for a character the line contains. */
  function Find(line: string, c: char): (i: nat)
    requires c in line
    ensures i < |line| && line[i] == c
    ensures c !in line[..i]
  {
    if line[0] == c then 0
    else
      var i := 1 + Find(line[1..], c);
      assert line[..i] == [line[0]] + line[1..][..i - 1];
      i
  }

  /**
   * The digit loop `while (isdigit(line[++idx])) n = n * 10 + digit`,
   * started at the marker's index `p`; returns the number and the index
   * of the first non-digit after it.
   */
  method ScanNumber(line: string, p: nat) returns (n: int, idx: nat)
    requires p < |line|
    ensures idx == RunEnd(line, p + 1)
    ensures n == NumberAfter(line, p)
  {
    n := 0;
    idx := p + 1;
    while idx < |line| && IsDigit(line[idx])
      invariant p + 1 <= idx <= |line|
      invariant RunEnd(line, idx) == RunEnd(line, p + 1)
      invariant AllDigits(line[p + 1..idx])
      invariant n == Decimal(line[p + 1..idx])
      decreases |line| - idx
    {
      ghost var ds := line[p + 1..idx + 1];
      assert ds[..|ds| - 1] == line[p + 1..idx];
      assert ds[|ds| - 1] == line[idx];
      n := n * 10 + (line[idx] as int - '0' as int);
      idx := idx + 1;
    }
  }

  /** The transaction number after the first 'T'. */
  function TxAfterT(line: string): int
    requires 'T' in line
  {
    NumberAfter(line, Find(line, 'T'))
  }

  /** Where the digits after the first 'x' end. */
  function VarEnd(line: string): nat
    requires 'x' in line
  {
    RunEnd(line, Find(line, 'x') + 1)
  }

  predicate ReadLine(line: string) {
    'T' in line && 'x' in line
  }

  /** A write line also has a character after the variable's digits. */
  predicate WriteLine(line: string) {
    'T' in line && 'x' in line && VarEnd(line) < |line|
  }

  function ReadOp(line: string): (op: Operation)
    requires ReadLine(line)
  {
    Blank(Read).(transactionId := TxAfterT(line), varIdx := NumberAfter(line, Find(line, 'x')))
  }

  function WriteOp(line: string): (op: Operation)
    requires WriteLine(line)
  {
    Blank(Write).(transactionId := TxAfterT(line), varIdx := NumberAfter(line, Find(line, 'x')),
                  val := NumberAfter(line, VarEnd(line)))
  }

  /** The operations `begin`, `beginRO` and `end` carry only a transaction number. */
  function TxOp(action: Action, line: string): (op: Operation)
    requires 'T' in line
  {
    Blank(action).(transactionId := TxAfterT(line))
  }

  /** The operations `fail` and `recover` carry only a site number. */
  function SiteOp(action: Action, line: string): (op: Operation)
    requires '(' in line
  {
    Blank(action).(siteId := NumberAfter(line, Find(line, '(')))
  }

  /** `getReadOperation`, e.g. `R(T1,x2)`. */
  method GetReadOperation(line: string) returns (op: Operation)
    requires ReadLine(line)
    ensures op == ReadOp(line)
  {
    op := Blank(Read);
    var n, idx := ScanNumber(line, Find(line, 'T'));
    op := op.(transactionId := n);
    n, idx := ScanNumber(line, Find(line, 'x'));
    op := op.(varIdx := n);
  }

  /**
   * `getWrietOperation`, e.g. `W(T1,x2,30)`: the value is read from the
   * digits that follow the single character after the variable's digits.
   */
  method GetWriteOperation(line: string) returns (op: Operation)
    requires WriteLine(line)
    ensures op == WriteOp(line)
  {
    op := Blank(Write);
    var n, idx := ScanNumber(line, Find(line, 'T'));
    op := op.(transactionId := n);
    n, idx := ScanNumber(line, Find(line, 'x'));
    op := op.(varIdx := n);
    n, idx := ScanNumber(line, idx);
    op := op.(val := n);
  }

  /** `getBeginOperation`, `getBeginROOperation` and `getEndOperation`. */
  method GetTxOperation(action: Action, line: string) returns (op: Operation)
    requires 'T' in line
    ensures op == TxOp(action, line)
  {
    op := Blank(action);
    var n, _ := ScanNumber(line, Find(line, 'T'));
    op := op.(transactionId := n);
  }

  /** `getFailOperation` and `getRecoverOperation`, e.g. `fail(3)`. */
  method GetSiteOperation(action: Action, line: string) returns (op: Operation)
    requires '(' in line
    ensures op == SiteOp(action, line)
  {
    op := Blank(action);
    var n, _ := ScanNumber(line, Find(line, '('));
    op := op.(siteId := n);
  }

  /** A line is read only when it starts with a letter; others are skipped. */
  predicate Kept(line: string) {
    |line| > 0 && IsAlpha(line[0])
  }

  /** A kept `b` line is `begin` or `beginRO` according to where its first '(' is. */
  predicate BeginAt(line: string, k: nat) {
    '(' in line && Find(line, '(') == k
  }

  /**
   * What each kind of line must contain for its parser to stay inside the
   * line: the markers it searches for.
   */
  predicate Parsable(line: string) {
    Kept(line) ==>
      match line[0]
      case 'R' => ReadLine(line)
      case 'W' => WriteLine(line)
      case 'b' => (BeginAt(line, 5) || BeginAt(line, 7)) ==> 'T' in line
      case 'e' => 'T' in line
      case 'r' => '(' in line
      case 'f' => '(' in line
      case _ => true
  }

  /** The operation a kept line becomes, or None for an unknown line. */
  function LineOp(line: string): (r: Option<Operation>)
    requires Kept(line) && Parsable(line)
    ensures r.Some? <==> line[0] in "RWedrf" || (line[0] == 'b' && (BeginAt(line, 5) || BeginAt(line, 7)))
    ensures r.Some? ==> r.value.timeStamp == 0
  {
    match line[0]
    case 'R' => Some(ReadOp(line))
    case 'W' => Some(WriteOp(line))
    case 'b' =>
      if BeginAt(line, 5) then Some(TxOp(Begin, line))
      else if BeginAt(line, 7) then Some(TxOp(BeginRO, line))
      else None
    case 'e' => Some(TxOp(End, line))
    case 'd' => Some(Blank(Dump))
    case 'r' => Some(SiteOp(Recover, line))
    case 'f' => Some(SiteOp(Fail, line))
    case _ => None
  }

  datatype Option<T> = None | Some(value: T)

  /** The outcome of reading a script: its operations, or a fatal error. */
  datatype Script = Ops(ops: seq<Operation>) | Fatal

  /** The lines of `lines` that are kept, in order. */
  function KeptLines(lines: seq<string>): (k: seq<string>)
    ensures forall i :: 0 <= i < |k| ==> Kept(k[i]) && k[i] in lines
  {
    if lines == [] then []
    else KeptLines(lines[..|lines| - 1]) + (if Kept(lines[|lines| - 1]) then [lines[|lines| - 1]] else [])
  }

  /** The whole script, line by line; every kept line is stamped with its ordinal. */
  function Parse(lines: seq<string>): (r: Script)
    requires forall line :: line in lines ==> Parsable(line)
  {
    if lines == [] then Ops([])
    else
      var last := lines[|lines| - 1];
      match Parse(lines[..|lines| - 1])
      case Fatal => Fatal
      case Ops(ops) =>
        if !Kept(last) then Ops(ops)
        else
          match LineOp(last)
          case None => Fatal
          case Some(op) => Ops(ops + [op.(timeStamp := |ops| + 1)])
  }

  /** Every line of `k` is a kept line of a known form. */
  predicate AllKnown(k: seq<string>) {
    forall i :: 0 <= i < |k| ==> Kept(k[i]) && Parsable(k[i]) && LineOp(k[i]).Some?
  }

  /** Reading fails exactly when some kept line has an unknown form. */
  lemma {:induction false} ParseOk(lines: seq<string>)
    requires forall line :: line in lines ==> Parsable(line)
    ensures Parse(lines).Ops? <==> AllKnown(KeptLines(lines))
  {
    var k := KeptLines(lines);
    if lines == [] {
      assert k == [];
    } else {
      var init := lines[..|lines| - 1];
      var last := lines[|lines| - 1];
      assert forall line :: line in init ==> line in lines;
      assert last in lines;
      ParseOk(init);
      var k0 := KeptLines(init);
      if !Kept(last) {
        assert k == k0 && Parse(lines) == Parse(init);
      } else if Parse(lines).Ops? {
        assert AllKnown(k0) && LineOp(last).Some?;
        forall i | 0 <= i < |k|
          ensures Kept(k[i]) && Parsable(k[i]) && LineOp(k[i]).Some?
        {
          if i < |k0| {
            assert k[i] == k0[i];
          } else {
            assert k[i] == last;
          }
        }
      } else if Parse(init).Fatal? {
        var j :| 0 <= j < |k0| && !(Kept(k0[j]) && Parsable(k0[j]) && LineOp(k0[j]).Some?);
        assert k[j] == k0[j];
      } else {
        assert LineOp(last).None?;
        assert k[|k0|] == last;
      }
    }
  }

  /**
   * A successful read yields one operation per kept line, in order: that
   * line's operation stamped 1, 2, 3, ...
   */
  lemma {:induction false} ParseStamps(lines: seq<string>)
    requires forall line :: line in lines ==> Parsable(line)
    ensures Parse(lines).Ops? ==>
      var ops := Parse(lines).ops;
      var k := KeptLines(lines);
      && |ops| == |k|
      && forall i :: 0 <= i < |ops| ==> LineOp(k[i]).Some? && ops[i] == LineOp(k[i]).value.(timeStamp := i + 1)
  {
    if lines != [] && Parse(lines).Ops? {
      var init := lines[..|lines| - 1];
      var last := lines[|lines| - 1];
      assert forall line :: line in init ==> line in lines;
      assert last in lines;
      ParseStamps(init);
      var k0 := KeptLines(init);
      var k := KeptLines(lines);
      var ops0 := Parse(init).ops;
      var ops := Parse(lines).ops;
      if Kept(last) {
        assert k == k0 + [last];
        assert ops == ops0 + [LineOp(last).value.(timeStamp := |ops0| + 1)];
        assert forall i :: 0 <= i < |ops0| ==> ops[i] == ops0[i] && k[i] == k0[i];
      } else {
        assert k == k0 && ops == ops0;
      }
    }
  }

  /** Once a prefix of the script is fatal, so is the whole script. */
  lemma {:induction false} FatalStays(lines: seq<string>, i: nat)
    requires forall line :: line in lines ==> Parsable(line)
    requires i <= |lines|
    requires Parse(lines[..i]) == Fatal
    ensures Parse(lines) == Fatal
    decreases |lines| - i
  {
    if i < |lines| {
      var longer := lines[..i + 1];
      assert longer[..i] == lines[..i];
      assert forall line :: line in longer ==> line in lines;
      FatalStays(lines, i + 1);
    } else {
      assert lines[..i] == lines;
    }
  }

  /** Kept lines get strictly increasing timestamps. */
  lemma StampsIncrease(lines: seq<string>, i: nat, j: nat)
    requires forall line :: line in lines ==> Parsable(line)
    requires Parse(lines).Ops? && i < j < |Parse(lines).ops|
    ensures 0 < Parse(lines).ops[i].timeStamp < Parse(lines).ops[j].timeStamp
  {
    ParseStamps(lines);
  }

  /**
   * The dispatch of `IOUtil::IOUtil` on the first character of a kept line;
   * None stands for the unknown line that ends the run.
   */
  method ParseLine(line: string) returns (r: Option<Operation>)
    requires Kept(line) && Parsable(line)
    ensures r == LineOp(line)
  {
    match line[0] {
      case 'R' =>
        var op := GetReadOperation(line);
        r := Some(op);
      case 'W' =>
        var op := GetWriteOperation(line);
        r := Some(op);
      case 'b' =>
        if BeginAt(line, 5) {
          var op := GetTxOperation(Begin, line);
          r := Some(op);
        } else if BeginAt(line, 7) {
          var op := GetTxOperation(BeginRO, line);
          r := Some(op);
        } else {
          r := None;
        }
      case 'e' =>
        var op := GetTxOperation(End, line);
        r := Some(op);
      case 'd' => r := Some(Blank(Dump));
      case 'r' =>
        var op := GetSiteOperation(Recover, line);
        r := Some(op);
      case 'f' =>
        var op := GetSiteOperation(Fail, line);
        r := Some(op);
      case _ => r := None;
    }
  }

  /**
   * The loop of `IOUtil::IOUtil` over the lines of the script: skip lines
   * not starting with a letter, advance the clock, parse, stamp and append;
   * an unknown line ends the run.
   */
  method ParseScript(lines: seq<string>) returns (r: Script)
    requires forall line :: line in lines ==> Parsable(line)
    ensures r == Parse(lines)
  {
    var operations: seq<Operation> := [];
    var time := 0;
    var i := 0;
    while i < |lines|
      invariant 0 <= i <= |lines|
      invariant Parse(lines[..i]) == Ops(operations)
      invariant time == |operations|
      decreases |lines| - i
    {
      var line := lines[i];
      ghost var pre := lines[..i + 1];
      assert pre[..i] == lines[..i] && pre[i] == line;
      assert forall l :: l in pre ==> l in lines;
      if Kept(line) {
        time := time + 1;
        var operation := ParseLine(line);
        if operation.None? {
          FatalStays(lines, i + 1);
          return Fatal;
        }
        operations := operations + [operation.value.(timeStamp := time)];
      }
      i := i + 1;
    }
    assert lines[..i] == lines;
    r := Ops(operations);
  }

  /** The decimal digits of `n`, most significant first, as a script writes them. */
  function Show(n: nat): (ds: string)
    ensures |ds| > 0 && AllDigits(ds)
  {
    var d := ['0' + (n % 10) as char];
    if n < 10 then d else Show(n / 10) + d
  }

  lemma {:induction false} ShowDecimal(n: nat)
    ensures Decimal(Show(n)) == n
  {
    var ds := Show(n);
    if n >= 10 {
      ShowDecimal(n / 10);
      assert ds[..|ds| - 1] == Show(n / 10);
    }
  }

  /** The digits starting at |pre| end where `ds` ends when a non-digit follows. */
  lemma {:induction false} RunOver(pre: string, ds: string, post: string)
    requires AllDigits(ds)
    requires post != [] && !IsDigit(post[0])
    ensures RunEnd(pre + ds + post, |pre|) == |pre| + |ds|
    ensures (pre + ds + post)[|pre|..|pre| + |ds|] == ds
    decreases |ds|
  {
    var line := pre + ds + post;
    if ds != [] {
      assert line == (pre + [ds[0]]) + ds[1..] + post;
      RunOver(pre + [ds[0]], ds[1..], post);
      assert IsDigit(line[|pre|]);
    } else {
      assert line[|pre|] == post[0];
    }
  }

  /** The digits after a marker that ends `pre` are `ds` when a non-digit follows them. */
  lemma DigitsAt(pre: string, ds: string, post: string, line: string)
    requires pre != [] && AllDigits(ds)
    requires post != [] && !IsDigit(post[0])
    requires line == pre + ds + post
    ensures RunEnd(line, |pre|) == |pre| + |ds|
    ensures NumberAfter(line, |pre| - 1) == Decimal(ds)
  {
    RunOver(pre, ds, post);
  }

  /** A run of digits contains no marker character. */
  lemma NoMarkerIn(ds: string, c: char)
    requires AllDigits(ds) && !IsDigit(c)
    ensures c !in ds
  {
    forall k | 0 <= k < |ds|
      ensures ds[k] != c
    {
      assert IsDigit(ds[k]);
    }
  }

  /** `find` locates a marker that does not occur earlier. */
  lemma {:induction false} FindAfter(pre: string, c: char, rest: string)
    requires c !in pre
    ensures c in pre + [c] + rest && Find(pre + [c] + rest, c) == |pre|
  {
    var line := pre + [c] + rest;
    assert line[|pre|] == c;
    if pre != [] {
      assert line[1..] == pre[1..] + [c] + rest;
      FindAfter(pre[1..], c, rest);
    }
  }

  /** The first marker `c` of a line, the number after it and where that number's digits end. */
  lemma MarkerDigits(pre: string, c: char, ds: string, post: string, line: string)
    requires c !in pre && !IsDigit(c) && AllDigits(ds)
    requires post != [] && !IsDigit(post[0])
    requires line == pre + [c] + (ds + post)
    ensures c in line && Find(line, c) == |pre|
    ensures NumberAfter(line, |pre|) == Decimal(ds)
    ensures RunEnd(line, |pre| + 1) == |pre| + 1 + |ds|
  {
    FindAfter(pre, c, ds + post);
    assert line == (pre + [c]) + ds + post;
    DigitsAt(pre + [c], ds, post, line);
  }

  /** The transaction of a read line `R(T<sa>,x<sb>)`. */
  lemma ReadTx(sa: string, sb: string, line: string)
    requires AllDigits(sa)
    requires line == "R(T" + sa + ",x" + sb + ")"
    ensures 'T' in line && TxAfterT(line) == Decimal(sa)
  {
    assert line == "R(" + ['T'] + (sa + (",x" + sb + ")"));
    MarkerDigits("R(", 'T', sa, ",x" + sb + ")", line);
  }

  /** The variable of a read line `R(T<sa>,x<sb>)`. */
  lemma ReadVar(sa: string, sb: string, line: string)
    requires AllDigits(sa) && AllDigits(sb)
    requires line == "R(T" + sa + ",x" + sb + ")"
    ensures 'x' in line && NumberAfter(line, Find(line, 'x')) == Decimal(sb)
  {
    NoMarkerIn(sa, 'x');
    var pre := "R(T" + sa + ",";
    assert line == pre + ['x'] + (sb + ")");
    MarkerDigits(pre, 'x', sb, ")", line);
  }

  /** Round trip for reads: `R(T<a>,x<b>)` parses to transaction a and variable b. */
  lemma ReadRoundTrip(a: nat, b: nat, line: string)
    requires line == "R(T" + Show(a) + ",x" + Show(b) + ")"
    ensures Kept(line) && Parsable(line)
    ensures LineOp(line) == Some(Blank(Read).(transactionId := a, varIdx := b))
  {
    ReadTx(Show(a), Show(b), line);
    ReadVar(Show(a), Show(b), line);
    ShowDecimal(a);
    ShowDecimal(b);
    assert line[0] == 'R';
  }

  /** The transaction of a write line `W(T<sa>,x<sb>,<sc>)`. */
  lemma WriteTx(sa: string, sb: string, sc: string, line: string)
    requires AllDigits(sa)
    requires line == "W(T" + sa + ",x" + sb + "," + sc + ")"
    ensures 'T' in line && TxAfterT(line) == Decimal(sa)
  {
    assert line == "W(" + ['T'] + (sa + (",x" + sb + "," + sc + ")"));
    MarkerDigits("W(", 'T', sa, ",x" + sb + "," + sc + ")", line);
  }

  /** The variable of a write line `W(T<sa>,x<sb>,<sc>)`, and where its digits end. */
  lemma WriteVar(sa: string, sb: string, sc: string, line: string)
    requires AllDigits(sa) && AllDigits(sb)
    requires line == "W(T" + sa + ",x" + sb + "," + sc + ")"
    ensures 'x' in line && NumberAfter(line, Find(line, 'x')) == Decimal(sb)
    ensures VarEnd(line) == |"W(T" + sa + ",x" + sb|
  {
    NoMarkerIn(sa, 'x');
    var pre := "W(T" + sa + ",";
    assert line == pre + ['x'] + (sb + ("," + sc + ")"));
    MarkerDigits(pre, 'x', sb, "," + sc + ")", line);
  }

  /** The value of a write line: the digits after the separator that ends the variable. */
  lemma WriteVal(sa: string, sb: string, sc: string, line: string)
    requires AllDigits(sc)
    requires line == "W(T" + sa + ",x" + sb + "," + sc + ")"
    ensures NumberAfter(line, |"W(T" + sa + ",x" + sb|) == Decimal(sc)
  {
    var pre := "W(T" + sa + ",x" + sb + ",";
    assert line == pre + sc + ")";
    DigitsAt(pre, sc, ")", line);
  }

  /**
   * Round trip for writes: `W(T<a>,x<b>,<c>)` parses to a, b and the value
   * c, read after the separator that follows b.
   */
  lemma WriteRoundTrip(a: nat, b: nat, c: nat, line: string)
    requires line == "W(T" + Show(a) + ",x" + Show(b) + "," + Show(c) + ")"
    ensures Kept(line) && Parsable(line)
    ensures LineOp(line) == Some(Blank(Write).(transactionId := a, varIdx := b, val := c))
  {
    WriteTx(Show(a), Show(b), Show(c), line);
    WriteVar(Show(a), Show(b), Show(c), line);
    WriteVal(Show(a), Show(b), Show(c), line);
    ShowDecimal(a);
    ShowDecimal(b);
    ShowDecimal(c);
    assert line[0] == 'W';
  }

  /** The site of a line `<word>(<ds>)` without an earlier '('. */
  lemma SiteFields(word: string, ds: string, line: string)
    requires '(' !in word && AllDigits(ds)
    requires line == word + "(" + ds + ")"
    ensures '(' in line && NumberAfter(line, Find(line, '(')) == Decimal(ds)
  {
    assert line == word + ['('] + (ds + ")");
    MarkerDigits(word, '(', ds, ")", line);
  }

  /** `fail(<n>)` parses to the site number n. */
  lemma FailRoundTrip(n: nat, line: string)
    requires line == "fail(" + Show(n) + ")"
    ensures Kept(line) && Parsable(line) && LineOp(line) == Some(Blank(Fail).(siteId := n))
  {
    SiteFields("fail", Show(n), line);
    ShowDecimal(n);
    assert line[0] == 'f';
  }

  /** `recover(<n>)` parses to the site number n. */
  lemma RecoverRoundTrip(n: nat, line: string)
    requires line == "recover(" + Show(n) + ")"
    ensures Kept(line) && Parsable(line) && LineOp(line) == Some(Blank(Recover).(siteId := n))
  {
    SiteFields("recover", Show(n), line);
    ShowDecimal(n);
    assert line[0] == 'r';
  }

  /** The first '(' and the transaction of a line `<word>(T<ds>)`. */
  lemma BeginFields(word: string, ds: string, line: string)
    requires '(' !in word && 'T' !in word && AllDigits(ds)
    requires line == word + "(T" + ds + ")"
    ensures BeginAt(line, |word|) && 'T' in line && TxAfterT(line) == Decimal(ds)
  {
    assert line == word + ['('] + ("T" + ds + ")");
    FindAfter(word, '(', "T" + ds + ")");
    BeginTx(word, ds, line);
  }

  /** The transaction of a line `<word>(T<ds>)`. */
  lemma BeginTx(word: string, ds: string, line: string)
    requires 'T' !in word && AllDigits(ds)
    requires line == word + "(T" + ds + ")"
    ensures 'T' in line && TxAfterT(line) == Decimal(ds)
  {
    assert line == (word + "(") + ['T'] + (ds + ")");
    MarkerDigits(word + "(", 'T', ds, ")", line);
  }

  /** `begin(T<a>)` and `beginRO(T<a>)` are told apart by the position of '('. */
  lemma BeginRoundTrip(a: nat, line: string)
    requires line == "begin(T" + Show(a) + ")"
    ensures Kept(line) && Parsable(line)
    ensures LineOp(line) == Some(Blank(Begin).(transactionId := a))
  {
    BeginFields("begin", Show(a), line);
    ShowDecimal(a);
    assert line[0] == 'b';
  }

  lemma BeginRORoundTrip(a: nat, line: string)
    requires line == "beginRO(T" + Show(a) + ")"
    ensures Kept(line) && Parsable(line)
    ensures LineOp(line) == Some(Blank(BeginRO).(transactionId := a))
  {
    BeginFields("beginRO", Show(a), line);
    ShowDecimal(a);
    assert line[0] == 'b' && !BeginAt(line, 5);
  }

}
