/** Modes on their way from a task argument to the agent's ParseUint. */
module Modes {
  import opened Wrappers
  import opened Numerals

  /** The `mode` task argument: absent, a YAML integer, or anything else through str(). */
  datatype ModeArg = NoMode | IntMode(n: int) | TextMode(text: string)

  function PythonOctal(n: int): string {
    if n < 0 then "-" + Render(-n, 8) else Render(n, 8)
  }

  /** copy.py's _format_mode. */
  function FormatMode(mode: ModeArg): Option<string> {
    match mode
    case NoMode => None
    case IntMode(n) => Some("0" + PythonOctal(n))
    case TextMode(s) => Some(if s != "" && s[0] == '0' then s else "0" + s)
  }

  /** The strings Python's int(s, 8) takes: blanks around it, a sign, an optional 0o prefix and
      single underscores between digits. */
  predicate PythonIntOctal(s: string) {
    var body := Strip(s);
    var unsigned := if body != "" && (body[0] == '+' || body[0] == '-') then body[1..] else body;
    var prefixed := |unsigned| >= 2 && unsigned[0] == '0' && (unsigned[1] == 'o' || unsigned[1] == 'O');
    var digits := if prefixed then unsigned[2..] else unsigned;
    GroupedDigits(if prefixed && digits != "" && digits[0] == '_' then digits[1..] else digits)
  }

  predicate GroupedDigits(s: string) {
    && s != ""
    && IsDigit(s[0], 8)
    && IsDigit(s[|s| - 1], 8)
    && (forall k :: 0 <= k < |s| ==> IsDigit(s[k], 8) || s[k] == '_')
    && (forall k :: 0 < k < |s| ==> !(s[k] == '_' && s[k - 1] == '_'))
  }

  predicate IsBlank(c: char) {
    c == ' ' || '\t' <= c <= '\r'
  }

  function Strip(s: string): string {
    if s != "" && IsBlank(s[0]) then Strip(s[1..])
    else if s != "" && IsBlank(s[|s| - 1]) then Strip(s[..|s| - 1])
    else s
  }

  /** file_state.py's format_octal_mode. */
  function FormatOctalMode(mode: ModeArg): Option<string> {
    match mode
    case NoMode => None
    case IntMode(n) => Some("0" + PythonOctal(n))
    case TextMode(s) =>
      if !PythonIntOctal(s) then None
      else Some(if s[0] == '0' then s else "0" + s)
  }

  /** Every mode integer a controller can send arrives as itself, whichever formatter sent it. */
  lemma IntModeArrives(n: nat)
    requires n < UINT32_LIMIT
    ensures FormatMode(IntMode(n)) == FormatOctalMode(IntMode(n))
    ensures ParseOctal32(FormatMode(IntMode(n)).value) == Some(n)
  {
    RenderValue(n, 8);
    LeadingZero(Render(n, 8), 8);
  }

  /** A negative integer is formatted but always refused by the agent. */
  lemma NegativeModeIsRefused(n: int)
    requires n < 0
    ensures ParseOctal32(FormatMode(IntMode(n)).value) == None
  {
    var s := FormatMode(IntMode(n)).value;
    assert s[1] == '-';
  }

  /** What the agent makes of a formatted text mode, for every text: it accepts exactly the
      strings of octal digits, and then reads the value the digits spell (so "" is mode 0). */
  lemma TextModeArrives(s: string)
    ensures AllDigits(s, 8) && Value(s, 8) < UINT32_LIMIT ==>
              ParseOctal32(FormatMode(TextMode(s)).value) == Some(Value(s, 8))
    ensures !AllDigits(s, 8) ==> ParseOctal32(FormatMode(TextMode(s)).value) == None
    ensures AllDigits(s, 8) && Value(s, 8) >= UINT32_LIMIT ==>
              ParseOctal32(FormatMode(TextMode(s)).value) == None
  {
    if AllDigits(s, 8) {
      LeadingZero(s, 8);
    } else {
      var k :| 0 <= k < |s| && !IsDigit(s[k], 8);
      assert ("0" + s)[k + 1] == s[k];
    }
  }

  /** format_octal_mode, exactly. Whatever text it lets through it formats as _format_mode does, and
      the agent then accepts the text exactly if it is plain octal digits in range: blanks, signs,
      underscores and 0o prefixes pass the controller's test and fail the agent's. */
  lemma OctalTextExact(s: string)
    requires PythonIntOctal(s)
    ensures FormatOctalMode(TextMode(s)) == FormatMode(TextMode(s))
    ensures ParseOctal32(FormatOctalMode(TextMode(s)).value) ==
              if AllDigits(s, 8) && Value(s, 8) < UINT32_LIMIT then Some(Value(s, 8)) else None
  {
    assert s != "";
    TextModeArrives(s);
  }

  /** Every non-empty string of octal digits is let through and, if in range, arrives. */
  lemma OctalDigitsArrive(s: string)
    requires s != "" && AllDigits(s, 8)
    ensures PythonIntOctal(s)
    ensures Value(s, 8) < UINT32_LIMIT ==> ParseOctal32(FormatOctalMode(TextMode(s)).value) == Some(Value(s, 8))
  {
    StripDigits(s);
    assert !IsBlank(s[0]) && IsDigit(s[0], 8) && IsDigit(s[|s| - 1], 8);
    if |s| >= 2 { assert IsDigit(s[1], 8); }
    OctalTextExact(s);
  }

  /** A text that is let through and then refused. */
  lemma PrefixedModeIsLetThroughAndRefused()
    ensures PythonIntOctal("0o644")
    ensures FormatOctalMode(TextMode("0o644")) == Some("0o644") && ParseOctal32("0o644") == None
  {
    var s := "0o644";
    assert Strip(s) == s;
    assert s[2..] == "644";
    assert !IsDigit(s[1], 8);
  }

  lemma StripDigits(s: string)
    requires AllDigits(s, 8)
    ensures Strip(s) == s
  {
    if s != "" {
      assert IsDigit(s[0], 8) && IsDigit(s[|s| - 1], 8);
    }
  }

  /** handleStat prints permission bits as "0%o"; the attribute setter reads them back exactly. */
  lemma PrintedPermIsReadBack(perm: nat)
    requires perm < UINT32_LIMIT
    ensures ParseOctal32("0" + Render(perm, 8)) == Some(perm)
  {
    IntModeArrives(perm);
  }

  /** A text without blanks around it is what int reads. */
  lemma PlainSample(s: string, unsigned: string, digits: string)
    requires s != "" && !IsBlank(s[0]) && !IsBlank(s[|s| - 1])
    requires unsigned == if s[0] == '+' || s[0] == '-' then s[1..] else s
    requires var prefixed := |unsigned| >= 2 && unsigned[0] == '0' && (unsigned[1] == 'o' || unsigned[1] == 'O');
      digits == if !prefixed then unsigned
                else if |unsigned| > 2 && unsigned[2] == '_' then unsigned[3..] else unsigned[2..]
    ensures PythonIntOctal(s) <==> GroupedDigits(digits)
  {
    assert Strip(s) == s;
    if |unsigned| > 2 { assert unsigned[2..][0] == unsigned[2] && unsigned[2..][1..] == unsigned[3..]; }
  }

  /** Texts Python's int reads in base 8 ... */
  lemma PythonIntReads()
    ensures PythonIntOctal("644") && PythonIntOctal("6_44") && PythonIntOctal("+644") && PythonIntOctal("0o_644")
  {
    PlainSample("644", "644", "644");
    PlainSample("6_44", "6_44", "6_44");
    PlainSample("+644", "644", "644");
    PlainSample("0o_644", "0o_644", "644");
  }

  lemma PythonIntStrips()
    ensures PythonIntOctal("\t644 ")
  {
    PlainSample("644", "644", "644");
    assert "\t644 "[1..] == "644 " && "644 "[..3] == "644";
    assert Strip("\t644 ") == Strip("644 ") == Strip("644");
  }

  /** ... and texts it does not. */
  lemma PythonIntRefuses()
    ensures !PythonIntOctal("6__44") && !PythonIntOctal("_644") && !PythonIntOctal("0o") && !PythonIntOctal("888")
    ensures !PythonIntOctal("u=rw")
  {
    assert "6__44"[2] == '_' && "6__44"[1] == '_';
    PlainSample("6__44", "6__44", "6__44");
    PlainSample("_644", "_644", "_644");
    PlainSample("0o", "0o", "");
    PlainSample("888", "888", "888");
    PlainSample("u=rw", "u=rw", "u=rw");
  }
}
