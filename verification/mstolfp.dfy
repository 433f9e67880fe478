/** Parsing milliseconds: the text is copied into a buffer with its decimal point moved three places
    to the left, and parsed there as seconds. */
module Mstolfp {

  import opened MachineWords
  import opened FixedPoint
  import opened DecimalText
  import opened Atolfp
  import opened Options

  const BUFFER_SIZE := 100

  /** A minus or a plus sign is kept; unlike in seconds there may be only one. */
  function SignText(s: string, a: nat): string
    requires a <= |s|
  {
    if a < |s| && (s[a] == '-' || s[a] == '+') then [s[a]] else ""
  }

  /** Milliseconds as seconds: all but the last three digits, a point, and three digits. */
  function Shifted(digits: string): (s: string)
    ensures |s| == if |digits| > 3 then |digits| + 1 else 5
  {
    if |digits| > 3 then digits[..|digits| - 3] + "." + digits[|digits| - 3..]
    else "0." + seq(3 - |digits|, _ => '0') + digits
  }

  predicate StartsNumber(s: string, c: nat)
    requires c <= |s|
  {
    c < |s| && (s[c] == '.' || IsDigit(s[c]))
  }

  /** Where the number that starts at c ends. */
  function NumberEnd(s: string, c: nat): (e: nat)
    requires c <= |s|
    ensures DigitEnd(s, c) <= e <= |s|
  {
    var d := DigitEnd(s, c);
    if d < |s| && s[d] == '.' then DigitEnd(s, d + 1) else d
  }

  /** The number that starts at c, rewritten. */
  function ShiftedText(s: string, c: nat): string
    requires c <= |s|
  {
    var d, e := DigitEnd(s, c), NumberEnd(s, c);
    Shifted(s[c..d]) + if e > d then s[d + 1..e] else ""
  }

  /** The rewritten number that starts at c, unless it is not properly terminated. */
  function ShiftedNumber(s: string, c: nat): Option<string>
    requires c <= |s|
  {
    if !StartsNumber(s, c) || !AtEnd(s, NumberEnd(s, c)) then None else Some(ShiftedText(s, c))
  }

  function SecondsText(s: string): Option<string> {
    var a := SpaceEnd(s, 0);
    var sign := SignText(s, a);
    match ShiftedNumber(s, a + |sign|)
    case None => None
    case Some(t) => Some(sign + t)
  }

  /** How many characters go to the buffer, the final NUL included. */
  function SpaceNeeded(s: string): nat {
    var a := SpaceEnd(s, 0);
    var sign := SignText(s, a);
    |sign| + if StartsNumber(s, a + |sign|) then |ShiftedText(s, a + |sign|)| + 1 else 0
  }

  /** mstolfp, for texts whose rewriting its buffer has room for. */
  method MsToLfp(str: string, width: Width) returns (ok: bool, ui: u32, uf: u32)
    requires '\0' !in str && SpaceNeeded(str) <= BUFFER_SIZE
    ensures ok <==> SecondsText(str).Some? && Parse(SecondsText(str).value).Some?
    ensures ok ==> Value(ui, uf) == Parse(SecondsText(str).value).value
  {
    hide Value, Parse, ShiftedNumber, ShiftedText, StartsNumber, SpaceEnd, DigitEnd;
    ok, ui, uf := false, 0, 0;
    var buf := new char[BUFFER_SIZE](_ => '\0');
    var bp := 0;
    var cp := SkipSpaces(str);
    if cp < |str| && (str[cp] == '-' || str[cp] == '+') {
      buf[bp] := str[cp];
      cp := cp + 1;
      bp := bp + 1;
    }
    assert buf[..bp] == SignText(str, SpaceEnd(str, 0));
    var good;
    good, bp := ShiftNumber(buf, bp, str, cp);
    if good {
      assert '\0' !in buf[..bp] by { NoNul(str, cp); }
      ok, ui, uf := AtoLfp(buf[..bp], width);
    }
  }

  lemma NoNul(str: string, c: nat)
    requires c <= |str| && '\0' !in str
    ensures ShiftedNumber(str, c).Some? ==> '\0' !in ShiftedNumber(str, c).value
  {}

  /** The part of mstolfp after the sign. */
  method ShiftNumber(buf: array<char>, start: nat, str: string, from: nat) returns (good: bool, bp: nat)
    requires buf.Length == BUFFER_SIZE && from <= |str| && start <= BUFFER_SIZE
    requires StartsNumber(str, from) ==> start + |ShiftedText(str, from)| + 1 <= BUFFER_SIZE
    modifies buf
    ensures start <= bp <= BUFFER_SIZE
    ensures good <==> ShiftedNumber(str, from).Some?
    ensures good ==> buf[..bp] == old(buf[..start]) + ShiftedNumber(str, from).value
  {
    hide DigitEnd, Shifted, ShiftedText, NumberEnd;
    good, bp := false, start;
    var cp := from;
    if !(cp < |str| && (str[cp] == '.' || IsDigit(str[cp]))) {
      return;
    }
    // search forward for the decimal point or the end of the digits
    var cpdec := SkipDigits(str, cp);
    TextOfNumber(str, cp);
    bp := ShiftDigits(buf, bp, str, cp, cpdec);
    cp := cpdec;
    if cp < |str| && str[cp] == '.' {
      bp, cp := CopyDecimals(buf, bp, str, cp + 1);
    }
    assert buf[..bp] == old(buf[..start]) + ShiftedText(str, from);
    buf[bp] := '\0';
    if cp < |str| && !IsSpace(str[cp]) {
      return;
    }
    good := true;
  }

  lemma TextOfNumber(s: string, c: nat)
    requires c <= |s|
    ensures var d := DigitEnd(s, c);
      if d < |s| && s[d] == '.' then
        NumberEnd(s, c) == DigitEnd(s, d + 1) && ShiftedText(s, c) == Shifted(s[c..d]) + s[d + 1..DigitEnd(s, d + 1)]
      else NumberEnd(s, c) == d && ShiftedText(s, c) == Shifted(s[c..d])
  {}

  method SkipDigits(str: string, from: nat) returns (cp: nat)
    requires from <= |str|
    ensures cp == DigitEnd(str, from)
  {
    cp := from;
    while cp < |str| && IsDigit(str[cp])
      invariant from <= cp <= |str| && DigitEnd(str, cp) == DigitEnd(str, from)
    {
      cp := cp + 1;
    }
  }

  /** Writes the integer digits as seconds. */
  method ShiftDigits(buf: array<char>, start: nat, str: string, from: nat, cpdec: nat) returns (bp: nat)
    requires buf.Length == BUFFER_SIZE && from <= cpdec <= |str| && start + |Shifted(str[from..cpdec])| <= BUFFER_SIZE
    modifies buf
    ensures bp == start + |Shifted(str[from..cpdec])|
    ensures buf[..bp] == old(buf[..start]) + Shifted(str[from..cpdec])
  {
    hide Shifted, Lead;
    ghost var head, digits := buf[..start], str[from..cpdec];
    var cp;
    bp, cp := CopyLead(buf, start, str, from, cpdec);
    ShiftedParts(digits);
    buf[bp] := '.';
    bp := bp + 1;
    assert buf[..bp] == head + Lead(digits) + ['.'];
    ghost var zeros := seq(3 - (cpdec - cp), _ => '0');
    bp := FillZeros(buf, bp, 3 - (cpdec - cp));
    // copy the remainder up to the decimal point
    bp := CopyRun(buf, bp, str, cp, cpdec);
    assert str[cp..cpdec] == digits[cp - from..];
    Joined(head, Lead(digits), ['.'], zeros, digits[cp - from..]);
  }

  lemma Joined(a: string, b: string, c: string, d: string, e: string)
    ensures a + b + c + d + e == a + (b + c + d + e)
  {}

  /** Copies the digits in excess of three, or inserts a leading zero. */
  method CopyLead(buf: array<char>, start: nat, str: string, from: nat, cpdec: nat) returns (bp: nat, cp: nat)
    requires buf.Length == BUFFER_SIZE && from <= cpdec <= |str| && start + |Shifted(str[from..cpdec])| <= BUFFER_SIZE
    modifies buf
    ensures from <= cp <= cpdec && cp == if cpdec - from > 3 then cpdec - 3 else from
    ensures bp == start + |Lead(str[from..cpdec])| && buf[..bp] == old(buf[..start]) + Lead(str[from..cpdec])
    ensures |Lead(str[from..cpdec])| <= cp - from + 1
  {
    cp := from;
    if cpdec - cp > 3 {
      bp := CopyRun(buf, start, str, cp, cpdec - 3);
      cp := cpdec - 3;
      assert Lead(str[from..cpdec]) == str[from..cpdec - 3];
    } else {
      buf[start] := '0';
      bp := start + 1;
    }
  }

  function Lead(digits: string): string {
    if |digits| > 3 then digits[..|digits| - 3] else ['0']
  }

  lemma ShiftedParts(digits: string)
    ensures var k := if |digits| > 3 then |digits| - 3 else 0;
      Shifted(digits) == Lead(digits) + ['.'] + seq(3 - (|digits| - k), _ => '0') + digits[k..]
  {}

  method FillZeros(buf: array<char>, start: nat, count: int) returns (bp: nat)
    requires count >= 0 && start + count <= buf.Length
    modifies buf
    ensures bp == start + count && buf[..bp] == old(buf[..start]) + seq(count, _ => '0')
  {
    bp := start;
    while bp < start + count
      invariant start <= bp <= start + count
      invariant buf[..bp] == old(buf[..start]) + seq(bp - start, _ => '0')
    {
      buf[bp] := '0';
      bp := bp + 1;
    }
  }

  lemma DigitEndStep(s: string, k: nat)
    requires k <= |s|
    ensures k < |s| && IsDigit(s[k]) ==> DigitEnd(s, k) == DigitEnd(s, k + 1)
    ensures k == |s| || !IsDigit(s[k]) ==> DigitEnd(s, k) == k
  {}

  method CopyDecimals(buf: array<char>, start: nat, str: string, from: nat) returns (bp: nat, cp: nat)
    requires from <= |str| && start + (DigitEnd(str, from) - from) <= buf.Length
    modifies buf
    ensures cp == DigitEnd(str, from) && bp == start + (cp - from)
    ensures buf[..bp] == old(buf[..start]) + str[from..cp]
  {
    hide DigitEnd;
    bp, cp := start, from;
    while cp < |str| && IsDigit(str[cp])
      invariant from <= cp <= DigitEnd(str, from) && bp == start + (cp - from) && DigitEnd(str, cp) == DigitEnd(str, from)
      invariant buf[..bp] == old(buf[..start]) + str[from..cp]
    {
      DigitEndStep(str, cp);
      buf[bp] := str[cp];
      bp := bp + 1;
      cp := cp + 1;
    }
    DigitEndStep(str, cp);
  }

  method CopyRun(buf: array<char>, start: nat, str: string, from: nat, to: nat) returns (bp: nat)
    requires from <= to <= |str| && start + (to - from) <= buf.Length
    modifies buf
    ensures bp == start + (to - from) && buf[..bp] == old(buf[..start]) + str[from..to]
  {
    bp := start;
    var cp := from;
    while cp < to
      invariant from <= cp <= to && bp == start + (cp - from)
      invariant buf[..bp] == old(buf[..start]) + str[from..cp]
    {
      buf[bp] := str[cp];
      bp := bp + 1;
      cp := cp + 1;
    }
  }
}
