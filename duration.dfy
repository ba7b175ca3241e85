/**
 * `duration_to_seconds`: an `H:M:S` text to a count of seconds, with Python's own
 * `str.split`, `int` and tuple unpacking deciding which texts are errors.
 */
module Duration {
  import opened Outcomes
  import opened Text

  // ---------------------------------------------------------------------------
  // Python's int() on a str, base 10
  // ---------------------------------------------------------------------------

  /** Characters `int` skips around the digits: ASCII \t \n \v \f \r and space, and the non-ASCII white space of `str.isspace`. */
  predicate IsIntSpace(c: char) {
    var k := c as int;
    (0x09 <= k <= 0x0D) || k == 0x20 || k == 0x85 || k == 0xA0 || k == 0x1680
    || (0x2000 <= k <= 0x200A) || k == 0x2028 || k == 0x2029 || k == 0x202F
    || k == 0x205F || k == 0x3000
  }

  /** `s` without its leading white space. */
  function StripLeft(s: string): string {
    if |s| > 0 && IsIntSpace(s[0]) then StripLeft(s[1..]) else s
  }

  /** `s` without its trailing white space. */
  function StripRight(s: string): string {
    if |s| > 0 && IsIntSpace(s[|s| - 1]) then StripRight(s[..|s| - 1]) else s
  }

  /** Stripping on the left removes exactly the leading run of white space. */
  lemma {:induction false} StripLeftSuffix(s: string)
    ensures var t := StripLeft(s);
      && |t| <= |s| && t == s[|s| - |t|..]
      && (|t| > 0 ==> !IsIntSpace(t[0]))
      && forall i :: 0 <= i < |s| - |t| ==> IsIntSpace(s[i])
    decreases |s|
  {
    if |s| > 0 && IsIntSpace(s[0]) {
      StripLeftSuffix(s[1..]);
      assert forall i :: 1 <= i < |s| ==> s[i] == s[1..][i - 1];
    }
  }

  /** Stripping on the right removes exactly the trailing run of white space. */
  lemma {:induction false} StripRightPrefix(s: string)
    ensures var t := StripRight(s);
      && |t| <= |s| && t == s[..|t|]
      && (|t| > 0 ==> !IsIntSpace(t[|t| - 1]))
      && forall i :: |t| <= i < |s| ==> IsIntSpace(s[i])
    decreases |s|
  {
    if |s| > 0 && IsIntSpace(s[|s| - 1]) {
      StripRightPrefix(s[..|s| - 1]);
    }
  }

  /** The digits of an integer literal: digits, single underscores only between two digits. */
  predicate DigitGroups(s: string) {
    && |s| > 0
    && IsDigit(s[0])
    && IsDigit(s[|s| - 1])
    && (forall i :: 0 <= i < |s| ==> IsDigit(s[i]) || s[i] == '_')
    && (forall i :: 0 <= i < |s| - 1 ==> s[i] == '_' ==> s[i + 1] != '_')
  }

  /** The digits of `s`, in order: for a literal, the literal with its underscores dropped. */
  function DigitsOf(s: string): (d: string)
    ensures AllDigits(d)
  {
    if |s| == 0 then ""
    else (if IsDigit(s[0]) then [s[0]] else "") + DigitsOf(s[1..])
  }

  /**
   * An unsigned literal read from its last digit backwards: a digit, with at most one
   * underscore before it, after a shorter literal; `None` for anything else.
   */
  function Unsigned(s: string): Option<nat>
    decreases |s|
  {
    if |s| == 0 || !IsDigit(s[|s| - 1]) then None
    else if |s| == 1 then Some(DigitValue(s[0]))
    else
      match Unsigned(Head(s))
      case None => None
      case Some(v) => Some(10 * v + DigitValue(s[|s| - 1]))
  }

  /**
   * CPython's default `sys.get_int_max_str_digits()` (3.11 and the 2022 security releases
   * of 3.7 to 3.10): `int` refuses a decimal text with more digits, underscores not counted.
   */
  const MaxStrDigits := 4300

  /** `int(text)`: `None` where Python raises ValueError. */
  function PyInt(text: string): Option<int>
  {
    var t := StripRight(StripLeft(text));
    var v := Literal(t);
    if v.Some? && |DigitsOf(t)| > MaxStrDigits then None else v
  }

  /** A signed or unsigned integer literal, read without the digit limit. */
  function Literal(t: string): Option<int> {
    if |t| > 0 && (t[0] == '+' || t[0] == '-') then
      match Unsigned(t[1..])
      case None => None
      case Some(v) => var n: int := v; Some(if t[0] == '-' then -n else n)
    else Unsigned(t)
  }

  lemma {:induction false} DigitsOfAppend(a: string, b: string)
    ensures DigitsOf(a + b) == DigitsOf(a) + DigitsOf(b)
    decreases |a|
  {
    if |a| == 0 {
      assert a + b == b;
    } else {
      var x, rest := if IsDigit(a[0]) then [a[0]] else "", a[1..];
      assert (a + b)[0] == a[0] && (a + b)[1..] == rest + b;
      assert DigitsOf(a + b) == x + DigitsOf(rest + b);
      DigitsOfAppend(rest, b);
      assert x + (DigitsOf(rest) + DigitsOf(b)) == (x + DigitsOf(rest)) + DigitsOf(b);
    }
  }

  lemma DecimalValueSnoc(x: string, c: char)
    requires AllDigits(x) && IsDigit(c)
    ensures AllDigits(x + [c]) && DecimalValue(x + [c]) == 10 * DecimalValue(x) + DigitValue(c)
  {
    assert (x + [c])[..|x|] == x;
  }

  /** The literal without its last digit and the underscore before that digit, if any. */
  function Head(s: string): string
    requires |s| >= 2
  {
    var init := s[..|s| - 1];
    if init[|init| - 1] == '_' then init[..|init| - 1] else init
  }

  lemma HeadSplit(s: string)
    requires |s| >= 2
    ensures s == Head(s) + (if s[|s| - 2] == '_' then "_" else "") + [s[|s| - 1]]
  {
  }

  /** A literal followed by a digit, with or without one underscore between, is a literal. */
  lemma GroupsExtend(head: string, sep: string, d: char)
    requires DigitGroups(head) && IsDigit(d) && (sep == "" || sep == "_")
    ensures DigitGroups(head + sep + [d])
  {
    var s := head + sep + [d];
    forall i | 0 <= i < |s| ensures IsDigit(s[i]) || s[i] == '_' {
      if i < |head| {
        assert s[i] == head[i];
      }
    }
    forall i | 0 <= i < |s| - 1 ensures s[i] == '_' ==> s[i + 1] != '_' {
      if i + 1 < |head| {
        assert s[i] == head[i] && s[i + 1] == head[i + 1];
      } else if i + 1 == |head| {
        assert s[i] == head[|head| - 1];
      }
    }
  }

  /** Cutting the last digit (and its underscore) off a longer literal leaves a literal. */
  lemma GroupsHead(s: string)
    requires DigitGroups(s) && |s| >= 2
    ensures DigitGroups(Head(s))
  {
    var head := Head(s);
    if s[|s| - 2] == '_' {
      assert |s| >= 3;
      assert head[|head| - 1] == s[|s| - 3];
    }
    assert head[0] == s[0];
    forall i | 0 <= i < |head| ensures IsDigit(head[i]) || head[i] == '_' {
      assert head[i] == s[i];
    }
    forall i | 0 <= i < |head| - 1 ensures head[i] == '_' ==> head[i + 1] != '_' {
      assert head[i] == s[i] && head[i + 1] == s[i + 1];
    }
  }

  /** The backwards reading accepts exactly Python's literal grammar: digit groups joined by single underscores. */
  lemma {:induction false} UnsignedAccepts(s: string)
    ensures Unsigned(s).Some? <==> DigitGroups(s)
    decreases |s|
  {
    if |s| >= 2 && IsDigit(s[|s| - 1]) {
      var head := Head(s);
      UnsignedAccepts(head);
      if DigitGroups(head) {
        HeadSplit(s);
        GroupsExtend(head, if s[|s| - 2] == '_' then "_" else "", s[|s| - 1]);
      } else if DigitGroups(s) {
        GroupsHead(s);
      }
    }
  }

  /** Dropping the underscores of a longer literal: those of its head, then its last digit. */
  lemma DigitsOfHead(s: string)
    requires DigitGroups(s) && |s| >= 2
    ensures DigitGroups(Head(s))
    ensures DigitsOf(s) == DigitsOf(Head(s)) + [s[|s| - 1]]
  {
    var d := s[|s| - 1];
    var head := Head(s);
    var sep := if s[|s| - 2] == '_' then "_" else "";
    GroupsHead(s);
    HeadSplit(s);
    DigitsOfSnoc(head, sep, d);
  }

  /** A digit, after at most one underscore, adds just that digit to the digits. */
  lemma DigitsOfSnoc(head: string, sep: string, d: char)
    requires IsDigit(d) && (sep == "" || sep == "_")
    ensures DigitsOf(head + sep + [d]) == DigitsOf(head) + [d]
  {
    var tail := sep + [d];
    assert head + sep + [d] == head + tail;
    DigitsOfAppend(head, tail);
    assert DigitsOf([d]) == [d] by {
      assert [d][1..] == [];
    }
    if sep == "_" {
      assert tail[1..] == [d];
    } else {
      assert tail == [d];
    }
  }

  /** The value read is that of the digits once the underscores are dropped. */
  lemma {:induction false} UnsignedValue(s: string)
    requires DigitGroups(s)
    ensures Unsigned(s) == Some(DecimalValue(DigitsOf(s)))
    decreases |s|
  {
    if |s| == 1 {
      assert s[1..] == "" && s[..0] == "";
      assert DigitsOf(s) == s;
    } else {
      DigitsOfHead(s);
      UnsignedValue(Head(s));
      DecimalValueSnoc(DigitsOf(Head(s)), s[|s| - 1]);
    }
  }

  /** A plain, possibly zero-padded, string of digits is read as the number it denotes. */
  lemma {:induction false} UnsignedDigits(s: string)
    requires |s| > 0 && AllDigits(s)
    ensures Unsigned(s) == Some(DecimalValue(s))
    decreases |s|
  {
    if |s| == 1 {
      assert s[..0] == "";
    } else {
      var init := s[..|s| - 1];
      assert IsDigit(init[|init| - 1]);
      UnsignedDigits(init);
    }
  }

  /** A string of digits is its own digits. */
  lemma {:induction false} DigitsOfDigits(s: string)
    requires AllDigits(s)
    ensures DigitsOf(s) == s
    decreases |s|
  {
    if |s| > 0 {
      assert AllDigits(s[1..]) by {
        forall i | 0 <= i < |s| - 1 ensures IsDigit(s[1..][i]) {
          assert s[1..][i] == s[i + 1];
        }
      }
      DigitsOfDigits(s[1..]);
      assert IsDigit(s[0]);
      assert s == [s[0]] + s[1..];
    }
  }

  /** Neither end of a non-empty digit string is white space, so `int` strips nothing from it. */
  lemma StripDigits(s: string)
    requires |s| > 0 && AllDigits(s)
    ensures StripRight(StripLeft(s)) == s && s[0] != '+' && s[0] != '-'
  {
    assert IsDigit(s[0]) && IsDigit(s[|s| - 1]);
    assert !IsIntSpace(s[0]) && !IsIntSpace(s[|s| - 1]);
    assert StripLeft(s) == s;
  }

  /**
   * A plain, possibly zero-padded, string of digits is read by `int` as the number it
   * denotes, as long as it is within the digit limit.
   */
  lemma PyIntOfDigits(s: string)
    requires |s| > 0 && AllDigits(s) && |s| <= MaxStrDigits
    ensures PyInt(s) == Some(DecimalValue(s))
  {
    StripDigits(s);
    DigitsOfDigits(s);
    UnsignedDigits(s);
  }

  /** A string of digits beyond the digit limit makes `int` raise, whatever its value. */
  lemma PyIntTooLong(s: string)
    requires AllDigits(s) && |s| > MaxStrDigits
    ensures PyInt(s) == None
  {
    StripDigits(s);
    DigitsOfDigits(s);
  }

  /** A text with no digit at all is never an integer. */
  lemma PyIntNeedsDigit(text: string)
    requires forall i :: 0 <= i < |text| ==> !IsDigit(text[i])
    ensures PyInt(text) == None
  {
    var l := StripLeft(text);
    var t := StripRight(l);
    StripLeftSuffix(text);
    StripRightPrefix(l);
    assert forall i :: 0 <= i < |t| ==> t[i] == text[|text| - |l| + i];
  }

  // ---------------------------------------------------------------------------
  // duration_to_seconds
  // ---------------------------------------------------------------------------

  /** The ValueError raised for a bad duration: a piece `int` rejects, or the wrong number of pieces. */
  datatype DurationError =
    | InvalidLiteral(text: string)
    | NotEnoughValues(got: nat)
    | TooManyValues

  /**
   * Unpacking `map(read, parts)` into three names, as CPython does it: `got` holds the
   * values pulled so far; each piece is converted when it is pulled, and after the
   * third one a fourth is pulled (and converted) only to find that it is one too many.
   * `duration_to_seconds` reads with `int`; the facts below hold for any `read`.
   */
  function Unpack(parts: seq<string>, got: seq<int>, read: string -> Option<int>): (r: Result<seq<int>, DurationError>)
    requires |got| <= 3 && |got| <= |parts|
    ensures r.Success? ==> |r.value| == 3
    decreases |parts| - |got|
  {
    var k := |got|;
    if k == |parts| then
      if k == 3 then Success(got) else Failure(NotEnoughValues(k))
    else
      match read(parts[k])
      case None => Failure(InvalidLiteral(parts[k]))
      case Some(v) => if k == 3 then Failure(TooManyValues) else Unpack(parts, got + [v], read)
  }

  /** Splits on `:`, reads three pieces with `int` and combines them as `3600*h + 60*m + s`. */
  function DurationToSeconds(duration: string): Result<int, DurationError> {
    PiecesToSeconds(Split(duration, ':'), PyInt)
  }

  /** Three pieces, unpacked with `read`, combined as hours, minutes and seconds. */
  function PiecesToSeconds(parts: seq<string>, read: string -> Option<int>): Result<int, DurationError> {
    var values := Unpack(parts, [], read);
    if values.Failure? then Failure(values.error)
    else Success(values.value[0] * 3600 + values.value[1] * 60 + values.value[2])
  }

  /** The index of the first piece `read` rejects, or the number of pieces when it rejects none. */
  function FirstInvalid(parts: seq<string>, read: string -> Option<int>): (k: nat)
    ensures k <= |parts|
    ensures k < |parts| ==> read(parts[k]).None?
    ensures forall j :: 0 <= j < k ==> read(parts[j]).Some?
  {
    if |parts| == 0 then 0
    else if read(parts[0]).None? then 0
    else
      var rest := parts[1..];
      var k := FirstInvalid(rest, read);
      assert k < |rest| ==> parts[k + 1] == rest[k];
      assert forall j :: 1 <= j < k + 1 ==> read(parts[j]).Some? by {
        forall j | 1 <= j < k + 1 ensures read(parts[j]).Some? {
          assert parts[j] == rest[j - 1];
        }
      }
      k + 1
  }

  /**
   * What unpacking comes to, said at once: the first piece `read` rejects, if it is
   * among the first four; otherwise the number of pieces decides.
   */
  function Unpacked(parts: seq<string>, read: string -> Option<int>): Result<seq<int>, DurationError> {
    var f := FirstInvalid(parts, read);
    if f < |parts| && f <= 3 then Failure(InvalidLiteral(parts[f]))
    else if |parts| < 3 then Failure(NotEnoughValues(|parts|))
    else if |parts| > 3 then Failure(TooManyValues)
    else Success([read(parts[0]).value, read(parts[1]).value, read(parts[2]).value])
  }

  /** Pulling piece after piece ends in the outcome stated at once, from any point up to the first bad piece. */
  lemma {:induction false} UnpackFrom(parts: seq<string>, got: seq<int>, read: string -> Option<int>)
    requires |got| <= 3 && |got| <= FirstInvalid(parts, read)
    requires forall k :: 0 <= k < |got| ==> read(parts[k]) == Some(got[k])
    ensures Unpack(parts, got, read) == Unpacked(parts, read)
    decreases |parts| - |got|
  {
    var k := |got|;
    if k == |parts| || read(parts[k]).None? || k == 3 {
      UnpackStops(parts, got, read);
    } else {
      var more := UnpackStep(parts, got, read);
      UnpackFrom(parts, more, read);
    }
  }

  /** A good piece among the first three is pulled, converted and kept, and unpacking goes on. */
  lemma UnpackStep(parts: seq<string>, got: seq<int>, read: string -> Option<int>) returns (more: seq<int>)
    requires |got| < 3 && |got| < |parts| && read(parts[|got|]).Some?
    requires forall k :: 0 <= k < |got| ==> read(parts[k]) == Some(got[k])
    ensures |more| == |got| + 1
    ensures forall k :: 0 <= k < |more| ==> read(parts[k]) == Some(more[k])
    ensures Unpack(parts, got, read) == Unpack(parts, more, read)
  {
    more := got + [read(parts[|got|]).value];
    forall j | 0 <= j < |more| ensures read(parts[j]) == Some(more[j]) {
      if j < |got| {
        assert more[j] == got[j];
      }
    }
  }

  /** Unpacking stops where the pieces run out, at a bad piece, or at the fourth good one. */
  lemma UnpackStops(parts: seq<string>, got: seq<int>, read: string -> Option<int>)
    requires |got| <= 3 && |got| <= FirstInvalid(parts, read)
    requires forall k :: 0 <= k < |got| ==> read(parts[k]) == Some(got[k])
    requires |got| == |parts| || read(parts[|got|]).None? || |got| == 3
    ensures Unpack(parts, got, read) == Unpacked(parts, read)
  {
    var k, f := |got|, FirstInvalid(parts, read);
    if k == |parts| {
      assert f == k;
      if k == 3 {
        assert got == [got[0], got[1], got[2]];
      }
    } else if read(parts[k]).None? {
      assert f == k;
    } else {
      assert f != k && |parts| > 3;
    }
  }

  /**
   * The pieces fail on the first one `read` rejects among the first four; with those
   * all numbers, on being fewer or more than three; otherwise they give `3600*h + 60*m + s`.
   */
  lemma PiecesOutcome(parts: seq<string>, read: string -> Option<int>)
    ensures var f := FirstInvalid(parts, read);
      PiecesToSeconds(parts, read) ==
        if f < |parts| && f <= 3 then Failure(InvalidLiteral(parts[f]))
        else if |parts| < 3 then Failure(NotEnoughValues(|parts|))
        else if |parts| > 3 then Failure(TooManyValues)
        else Success(3600 * read(parts[0]).value + 60 * read(parts[1]).value + read(parts[2]).value)
  {
    UnpackFrom(parts, [], read);
    var u := Unpack(parts, [], read);
    assert u == Unpacked(parts, read);
    var f := FirstInvalid(parts, read);
    if f < |parts| && f <= 3 {
      assert u == Failure(InvalidLiteral(parts[f]));
    } else if |parts| != 3 {
      assert u.Failure? && u.error == if |parts| < 3 then NotEnoughValues(|parts|) else TooManyValues;
    } else {
      var h, m, s := read(parts[0]).value, read(parts[1]).value, read(parts[2]).value;
      assert u == Success([h, m, s]);
    }
  }

  /**
   * A duration fails on the first piece `int` rejects among the first four; with
   * those all numbers, on having fewer or more than three pieces; otherwise it is
   * `3600*h + 60*m + s`.
   */
  lemma DurationOutcome(duration: string)
    ensures var p := Split(duration, ':'); var f := FirstInvalid(p, PyInt);
      DurationToSeconds(duration) ==
        if f < |p| && f <= 3 then Failure(InvalidLiteral(p[f]))
        else if |p| < 3 then Failure(NotEnoughValues(|p|))
        else if |p| > 3 then Failure(TooManyValues)
        else Success(3600 * PyInt(p[0]).value + 60 * PyInt(p[1]).value + PyInt(p[2]).value)
  {
    PiecesOutcome(Split(duration, ':'), PyInt);
  }

  /** A duration converts exactly when it has three pieces and `int` accepts each of them. */
  lemma DurationSucceeds(duration: string)
    ensures var p := Split(duration, ':');
      DurationToSeconds(duration).Success? <==> |p| == 3 && PyInt(p[0]).Some? && PyInt(p[1]).Some? && PyInt(p[2]).Some?
  {
    DurationOutcome(duration);
  }

  /** A text that does not split into exactly three pieces is always an error, whatever the pieces. */
  lemma WrongPieceCountFails(duration: string)
    requires |Split(duration, ':')| != 3
    ensures DurationToSeconds(duration).Failure?
  {
    DurationSucceeds(duration);
  }

  /**
   * Digit groups `h:m:s` of any widths up to the digit limit, zero-padded or not, give
   * `3600*h + 60*m + s`; nothing bounds `h` (or `m` and `s`) to a clock range.
   */
  lemma {:induction false} DurationOfDigits(h: nat, m: nat, s: nat, wh: nat, wm: nat, ws: nat)
    requires 1 <= wh <= MaxStrDigits && h < Pow10(wh)
    requires 1 <= wm <= MaxStrDigits && m < Pow10(wm)
    requires 1 <= ws <= MaxStrDigits && s < Pow10(ws)
    ensures DurationToSeconds(PadDigits(h, wh) + ":" + PadDigits(m, wm) + ":" + PadDigits(s, ws))
         == Success(3600 * h + 60 * m + s)
  {
    var a, b, c := PadDigits(h, wh), PadDigits(m, wm), PadDigits(s, ws);
    var text := a + ":" + b + ":" + c;
    SplitDigitGroups(a, b, c);
    PadDigitsValue(h, wh);
    PadDigitsValue(m, wm);
    PadDigitsValue(s, ws);
    PyIntOfDigits(a);
    PyIntOfDigits(b);
    PyIntOfDigits(c);
    DurationOfPieces(text, h, m, s);
  }

  lemma DurationOfPieces(text: string, h: int, m: int, s: int)
    requires var p := Split(text, ':');
      |p| == 3 && PyInt(p[0]) == Some(h) && PyInt(p[1]) == Some(m) && PyInt(p[2]) == Some(s)
    ensures DurationToSeconds(text) == Success(3600 * h + 60 * m + s)
  {
    var p := Split(text, ':');
    DurationOutcome(text);
    FirstInvalidNone(p);
  }

  /** When `int` accepts every piece, none is the first invalid one. */
  lemma FirstInvalidNone(parts: seq<string>)
    requires forall j :: 0 <= j < |parts| ==> PyInt(parts[j]).Some?
    ensures FirstInvalid(parts, PyInt) == |parts|
  {
  }

  lemma DigitsHaveNoColon(x: string)
    requires AllDigits(x)
    ensures ':' !in x
  {
  }

  lemma SplitDigitGroups(a: string, b: string, c: string)
    requires AllDigits(a) && AllDigits(b) && AllDigits(c)
    ensures Split(a + ":" + b + ":" + c, ':') == [a, b, c]
  {
    DigitsHaveNoColon(a);
    DigitsHaveNoColon(b);
    DigitsHaveNoColon(c);
    var parts := [a, b, c];
    assert Join(parts, ':') == a + ":" + b + ":" + c by {
      assert parts[1..] == [b, c] && [b, c][1..] == [c];
      assert Join([b, c], ':') == b + ":" + c;
      assert Join(parts, ':') == a + ":" + (b + ":" + c);
    }
    SplitJoin(parts, ':');
  }

  /** An hours field with more digits than the limit makes the whole duration fail on that field. */
  lemma LongHoursFail(h: nat, wh: nat)
    requires wh > MaxStrDigits
    ensures DurationToSeconds(PadDigits(h, wh) + ":00:00") == Failure(InvalidLiteral(PadDigits(h, wh)))
  {
    var a := PadDigits(h, wh);
    assert AllDigits("00");
    assert a + ":00:00" == a + ":" + "00" + ":" + "00";
    SplitDigitGroups(a, "00", "00");
    PyIntTooLong(a);
    DurationOutcome(a + ":00:00");
  }

  /** `1:2` has only two pieces, so unpacking fails with not enough values, having got two. */
  lemma TwoPiecesFail()
    ensures DurationToSeconds("1:2") == Failure(NotEnoughValues(2))
  {
    var parts := ["1", "2"];
    assert Join(parts, ':') == "1:2";
    SplitJoin(parts, ':');
    PyIntOfDigits("1");
    PyIntOfDigits("2");
    DurationOutcome("1:2");
  }
}
