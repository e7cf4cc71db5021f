/** The script of the upload area component: JavaScript's `parseInt` and
    `parseFloat` as the options use them, `parseDimensions` with its
    1920x1080 fallback, the Dropzone options read from the container's data
    attributes, the browser-side pre-resize decision, and the form fields
    added to every upload. JavaScript numbers are modelled as exact values
    with NaN and the infinities kept apart. */
module UploadArea {
  import opened Php
  import opened Text

  // ---------------------------------------------------------------------------
  // JavaScript numbers and number parsing
  // ---------------------------------------------------------------------------

  /** A JavaScript number: NaN, an infinity, or a finite value (exact). */
  datatype Num = NaN | Finite(value: real) | Infinite(negative: bool)

  /** The characters `parseInt` and `parseFloat` skip at the start
      (WhiteSpace and LineTerminator of ECMA-262). */
  predicate IsJsSpace(c: char) {
    || c == '\t' || c == '\n' || c == '\U{000B}' || c == '\U{000C}' || c == '\r' || c == ' '
    || c == '\U{00A0}' || c == '\U{1680}' || ('\U{2000}' <= c <= '\U{200A}')
    || c == '\U{2028}' || c == '\U{2029}' || c == '\U{202F}' || c == '\U{205F}' || c == '\U{3000}' || c == '\U{FEFF}'
  }

  /** `s` without its leading white space. */
  function TrimStart(s: string): (r: string)
    ensures |r| <= |s| && r == s[|s| - |r|..]
    ensures r == [] || !IsJsSpace(r[0])
    ensures forall k :: 0 <= k < |s| - |r| ==> IsJsSpace(s[k])
  {
    if s != [] && IsJsSpace(s[0]) then TrimStart(s[1..]) else s
  }

  /** The longest prefix of decimal digits. */
  function LeadingDigits(s: string): (d: string)
    ensures d <= s
  {
    if s != [] && IsDigit(s[0]) then [s[0]] + LeadingDigits(s[1..]) else []
  }

  /** The prefix is all digits and is followed by none. */
  lemma {:induction false} LeadingDigitsSpec(s: string)
    ensures var d := LeadingDigits(s);
            && (forall k :: 0 <= k < |d| ==> IsDigit(d[k]))
            && (|d| < |s| ==> !IsDigit(s[|d|]))
  {
    if s != [] && IsDigit(s[0]) {
      LeadingDigitsSpec(s[1..]);
    }
  }

  /** The sign of a trimmed numeral and what follows it. */
  function SplitSign(t: string): (bool, string) {
    if t != [] && t[0] == '-' then (true, t[1..])
    else if t != [] && t[0] == '+' then (false, t[1..])
    else (false, t)
  }

  /** The value of the leading digits of `rest`, if there are any. */
  function LeadingValue(rest: string): Option<nat> {
    var d := LeadingDigits(rest);
    if d == [] then None
    else
      LeadingDigitsSpec(rest);
      Some(DecimalValue(d))
  }

  /** `parseInt(s, 10)`: `None` is NaN. */
  function ParseInt(s: string): Option<int> {
    ParseTrimmedInt(TrimStart(s))
  }

  /** `parseInt` after its leading white space is gone: a sign, then digits. */
  function ParseTrimmedInt(t: string): Option<int> {
    var (negative, rest) := SplitSign(t);
    match LeadingValue(rest)
    case None => None
    case Some(v) => Some(if negative then -(v as int) else v as int)
  }

  /** `parseInt` is NaN exactly when no digit follows the white space and sign. */
  lemma ParseIntNaNIff(s: string)
    ensures var rest := SplitSign(TrimStart(s)).1;
            ParseInt(s).None? <==> rest == [] || !IsDigit(rest[0])
  {
  }

  lemma {:induction false} LeadingDigitsOfShow(d: string, t: string)
    requires forall k :: 0 <= k < |d| ==> IsDigit(d[k])
    requires t == [] || !IsDigit(t[0])
    ensures LeadingDigits(d + t) == d
  {
    if d != [] {
      assert (d + t)[1..] == d[1..] + t;
      LeadingDigitsOfShow(d[1..], t);
    }
  }

  /** A string that does not start with white space is its own trim. */
  lemma TrimStartOfNonSpace(s: string)
    requires s != [] && !IsJsSpace(s[0])
    ensures TrimStart(s) == s
  {
  }

  /** The leading value of digits followed by anything that is not a digit. */
  lemma LeadingValueOfNumeral(d: string, t: string)
    requires d != [] && forall k :: 0 <= k < |d| ==> IsDigit(d[k])
    requires t == [] || !IsDigit(t[0])
    ensures LeadingValue(d + t) == Some(DecimalValue(d))
  {
    LeadingDigitsOfShow(d, t);
  }

  /** A string that starts with a digit parses to its leading value. */
  lemma ParseIntOfDigitFirst(r: string, v: nat)
    requires r != [] && IsDigit(r[0]) && LeadingValue(r) == Some(v)
    ensures ParseInt(r) == Some(v as int)
  {
    TrimStartOfNonSpace(r);
    assert SplitSign(r) == (false, r);
  }

  /** A minus sign negates the value of the digits after it. */
  lemma ParseIntAfterMinus(r: string, v: nat)
    requires LeadingValue(r) == Some(v)
    ensures ParseInt("-" + r) == Some(-(v as int))
  {
    var s := "-" + r;
    assert s[0] == '-' && s[1..] == r;
    TrimStartOfNonSpace(s);
  }

  /** The leading value of a numeral written by `Show`. */
  lemma LeadingValueOfShow(n: nat, t: string)
    requires t == [] || !IsDigit(t[0])
    ensures LeadingValue(Show(n) + t) == Some(n)
  {
    LeadingValueOfNumeral(Show(n), t);
    DecimalShow(n);
  }

  /** A decimal numeral followed by anything that is not a digit parses
      back to its value. */
  lemma ParseIntShow(n: nat, t: string)
    requires t == [] || !IsDigit(t[0])
    ensures ParseInt(Show(n) + t) == Some(n as int)
  {
    var r := Show(n) + t;
    assert r[0] == Show(n)[0];
    LeadingValueOfShow(n, t);
    ParseIntOfDigitFirst(r, n);
  }

  /** The same with a minus sign in front. */
  lemma ParseIntShowNegative(n: nat, t: string)
    requires t == [] || !IsDigit(t[0])
    ensures ParseInt("-" + (Show(n) + t)) == Some(-(n as int))
  {
    LeadingValueOfShow(n, t);
    ParseIntAfterMinus(Show(n) + t, n);
  }

  /** `10^e` as an exact value. */
  function Pow10(e: int): (r: real)
    ensures r > 0.0
    decreases if e < 0 then -e else e
  {
    if e == 0 then 1.0 else if e > 0 then 10.0 * Pow10(e - 1) else Pow10(e + 1) / 10.0
  }

  /** The exponent part `e[+-]digits` at the start of `s`, when there is one. */
  function Exponent(s: string): Option<int> {
    if s == [] || (s[0] != 'e' && s[0] != 'E') then None
    else
      var (negative, rest) := SplitSign(s[1..]);
      var d := LeadingDigits(rest);
      if d == [] then None
      else
        LeadingDigitsSpec(rest);
        var v: int := DecimalValue(d);
        Some(if negative then -v else v)
  }

  /** The value of the decimal literal (digits, an optional fraction, an
      optional exponent) at the start of `rest`; `None` when it has neither
      integer nor fraction digits. */
  function DecimalLiteral(rest: string): Option<real> {
    var ip := LeadingDigits(rest);
    var after := rest[|ip|..];
    var dot := after != [] && after[0] == '.';
    var fp := if dot then LeadingDigits(after[1..]) else [];
    if ip == [] && fp == [] then None
    else
      LeadingDigitsSpec(rest);
      LeadingDigitsSpec(if dot then after[1..] else []);
      assert forall k :: 0 <= k < |ip + fp| ==> IsDigit((ip + fp)[k]);
      var tail := if dot then after[1 + |fp|..] else after;
      var e := Exponent(tail).GetOr(0);
      Some(DecimalValue(ip + fp) as real * Pow10(e - |fp|))
  }

  /** `parseFloat(s)`: the longest prefix that is a decimal literal or
      "Infinity", after white space and an optional sign. */
  function ParseFloat(s: string): Num {
    var (negative, rest) := SplitSign(TrimStart(s));
    if "Infinity" <= rest then Infinite(negative)
    else
      match DecimalLiteral(rest)
      case None => NaN
      case Some(m) => Finite(if negative then -m else m)
  }

  /** `parseFloat` is NaN exactly when after the white space and sign there
      is neither "Infinity", nor a digit, nor a '.' followed by a digit. */
  lemma ParseFloatNaNIff(s: string)
    ensures var rest := SplitSign(TrimStart(s)).1;
            ParseFloat(s) == NaN <==>
              && !("Infinity" <= rest)
              && (rest == [] || !IsDigit(rest[0]))
              && !(|rest| >= 2 && rest[0] == '.' && IsDigit(rest[1]))
  {
    var rest := SplitSign(TrimStart(s)).1;
    if !("Infinity" <= rest) && (rest == [] || !IsDigit(rest[0])) {
      var after := rest[|LeadingDigits(rest)|..];
      assert after == rest;
    }
  }

  /** A string of digits is a literal whose value is that of the digits. */
  lemma DecimalLiteralOfDigits(d: string)
    requires d != [] && forall k :: 0 <= k < |d| ==> IsDigit(d[k])
    ensures DecimalLiteral(d) == Some(DecimalValue(d) as real)
  {
    assert d + [] == d;
    LeadingDigitsOfShow(d, []);
    assert d[|d|..] == [];
    assert Pow10(0) == 1.0;
  }

  /** A string that starts with a digit is read as its literal. */
  lemma ParseFloatOfDigitFirst(r: string, m: real)
    requires r != [] && IsDigit(r[0]) && DecimalLiteral(r) == Some(m)
    ensures ParseFloat(r) == Finite(m)
  {
    TrimStartOfNonSpace(r);
    assert SplitSign(r) == (false, r);
    assert !("Infinity" <= r);
  }

  /** `parseFloat` reads a plain decimal integer as its value. */
  lemma ParseFloatShow(n: nat)
    ensures ParseFloat(Show(n)) == Finite(n as real)
  {
    DecimalLiteralOfDigits(Show(n));
    DecimalShow(n);
    ParseFloatOfDigitFirst(Show(n), n as real);
  }

  // ---------------------------------------------------------------------------
  // parseDimensions (lines 75-85)
  // ---------------------------------------------------------------------------

  datatype Size = Size(width: int, height: int)

  const FallbackSize := Size(1920, 1080)

  /** `parseDimensions(container.dataset.dimensions)`; `None` is a missing
      attribute. */
  function ParseDimensions(dims: Option<string>): Size {
    if dims.None? || dims.value == "" then FallbackSize
    else
      var parts := Split(dims.value, 'x');
      if |parts| != 2 then FallbackSize
      else
        match (ParseInt(parts[0]), ParseInt(parts[1]))
        case (Some(w), Some(h)) => Size(w, h)
        case _ => FallbackSize
  }

  /** The result is the fallback, or the leading integers of the two parts
      of a string with exactly one lower-case 'x'. */
  lemma ParseDimensionsCases(dims: Option<string>)
    ensures var r := ParseDimensions(dims);
            r == FallbackSize ||
            (dims.Some? && |Split(dims.value, 'x')| == 2 &&
             ParseInt(Split(dims.value, 'x')[0]) == Some(r.width) &&
             ParseInt(Split(dims.value, 'x')[1]) == Some(r.height))
    ensures dims.Some? && (|Split(dims.value, 'x')| != 2 ||
                           ParseInt(Split(dims.value, 'x')[0]).None? || ParseInt(Split(dims.value, 'x')[1]).None?)
            ==> ParseDimensions(dims) == FallbackSize
  {
  }

  lemma {:induction false} DigitsHaveNoX(d: string)
    requires forall k :: 0 <= k < |d| ==> IsDigit(d[k])
    ensures 'x' !in d
  {
  }

  /** The result for a string with exactly two parts that both parse. */
  lemma ParseDimensionsOfParts(d: string, w: int, h: int)
    requires |Split(d, 'x')| == 2
    requires ParseInt(Split(d, 'x')[0]) == Some(w) && ParseInt(Split(d, 'x')[1]) == Some(h)
    ensures ParseDimensions(Some(d)) == Size(w, h)
  {
  }

  /** "WxH" written in decimal is read back. */
  lemma ParseDimensionsShow(w: nat, h: nat)
    ensures ParseDimensions(Some(Show(w) + "x" + Show(h))) == Size(w, h)
  {
    var sw := Show(w);
    var sh := Show(h);
    DigitsHaveNoX(sw);
    DigitsHaveNoX(sh);
    SplitPair(sw, sh, 'x');
    var parts := Split(sw + "x" + sh, 'x');
    assert parts == [sw, sh];
    ParseIntShow(w, []);
    ParseIntShow(h, []);
    assert sw + [] == sw && sh + [] == sh;
    ParseDimensionsOfParts(sw + "x" + sh, w, h);
  }

  /** A missing or empty attribute, an upper-case separator and a third
      part all fall back to 1920x1080. */
  lemma ParseDimensionsFallbacks()
    ensures ParseDimensions(None) == FallbackSize
    ensures ParseDimensions(Some("")) == FallbackSize
    ensures ParseDimensions(Some("1920X1080")) == FallbackSize
    ensures ParseDimensions(Some("1x2x3")) == FallbackSize
  {
    assert 'x' !in "1920X1080";
    var parts := ["1", "2", "3"];
    assert Join(parts[1..], 'x') == "2x3" by {
      assert parts[1..][1..] == ["3"];
    }
    assert Join(parts, 'x') == "1x2x3";
    SplitJoin(parts, 'x');
  }

  lemma ParseIntOf800()
    ensures ParseInt("800") == Some(800)
  {
    assert Show(800) == "800";
    ParseIntShow(800, []);
    assert "800" + [] == "800";
  }

  lemma ParseIntOf600()
    ensures ParseInt("600") == Some(600)
  {
    assert Show(600) == "600";
    ParseIntShow(600, []);
    assert "600" + [] == "600";
  }

  lemma TrimStartOfSpaced()
    ensures TrimStart(" 600") == "600"
  {
    assert !IsJsSpace('6');
    assert TrimStart("600") == "600";
    assert " 600"[1..] == "600";
  }

  /** A leading white-space character makes no difference to parseInt. */
  lemma ParseIntSkipsSpace(s: string)
    requires s != [] && IsJsSpace(s[0])
    ensures ParseInt(s) == ParseInt(s[1..])
  {
    TrimStartOfSpace(s);
  }

  lemma TrimStartOfSpace(s: string)
    requires s != [] && IsJsSpace(s[0])
    ensures TrimStart(s) == TrimStart(s[1..])
  {
  }

  lemma ParseIntOfSpaced()
    ensures ParseInt(" 600") == Some(600)
  {
    ParseIntSkipsSpace(" 600");
    assert " 600"[1..] == "600";
    ParseIntOf600();
  }

  /** White space before a number is skipped. */
  lemma ParseDimensionsSkipsSpace()
    ensures ParseDimensions(Some("800x 600")) == Size(800, 600)
  {
    SplitPair("800", " 600", 'x');
    assert "800" + ['x'] + " 600" == "800x 600";
    ParseIntOf800();
    ParseIntOfSpaced();
    ParseDimensionsOfParts("800x 600", 800, 600);
  }

  // ---------------------------------------------------------------------------
  // Options from the data attributes (lines 94-104)
  // ---------------------------------------------------------------------------

  /** `a || d` for a data attribute: a missing or empty attribute gives `d`. */
  function OrDefault(a: Option<string>, d: string): string {
    if a.None? || a.value == "" then d else a.value
  }

  /** The data attributes of the container the script reads. */
  datatype Dataset = Dataset(maxFiles: Option<string>, maxFilesize: Option<string>, dimensions: Option<string>,
                             preResize: Option<string>, reloadOnSuccess: Option<string>, modelId: Option<string>,
                             modelType: Option<string>, directory: Option<string>,
                             keepOriginalName: Option<string>, locale: Option<string>)

  /** `maxFiles`: a NaN from `parseInt` is replaced by 10. */
  function MaxFiles(ds: Dataset): (n: int)
    ensures ParseInt(OrDefault(ds.maxFiles, "10")).None? ==> n == 10
    ensures ParseInt(OrDefault(ds.maxFiles, "10")).Some? ==> n == ParseInt(OrDefault(ds.maxFiles, "10")).value
  {
    match ParseInt(OrDefault(ds.maxFiles, "10"))
    case None => 10
    case Some(v) => v
  }

  /** `maxFilesize` in megabytes: a NaN from `parseFloat` is replaced by 10. */
  function MaxFilesize(ds: Dataset): (n: Num)
    ensures n != NaN
    ensures ParseFloat(OrDefault(ds.maxFilesize, "10")) == NaN ==> n == Finite(10.0)
    ensures ParseFloat(OrDefault(ds.maxFilesize, "10")) != NaN ==> n == ParseFloat(OrDefault(ds.maxFilesize, "10"))
  {
    var v := ParseFloat(OrDefault(ds.maxFilesize, "10"));
    if v == NaN then Finite(10.0) else v
  }

  /** Without the attributes, or with ones that are not numbers, both limits are 10. */
  lemma LimitsDefaultToTen(ds: Dataset)
    requires ds.maxFiles.None? || ds.maxFiles == Some("")
    requires ds.maxFilesize.None? || ds.maxFilesize == Some("")
    ensures MaxFiles(ds) == 10 && MaxFilesize(ds) == Finite(10.0)
  {
    ParseIntOfTen();
    ParseFloatOfTen();
  }

  lemma ParseIntOfTen()
    ensures ParseInt("10") == Some(10)
  {
    assert Show(10) == "10";
    ParseIntShow(10, []);
    assert "10" + [] == "10";
  }

  lemma ParseFloatOfTen()
    ensures ParseFloat("10") == Finite(10.0)
  {
    assert Show(10) == "10";
    ParseFloatShow(10);
  }

  /** An attribute that is a word, not a number, also gives 10 for both
      limits ("many", "unlimited", ...). */
  lemma LimitsIgnoreNonNumbers(ds: Dataset)
    requires ds.maxFiles.Some? && ds.maxFiles.value != [] && 'a' <= ds.maxFiles.value[0] <= 'z'
    requires ds.maxFilesize.Some? && ds.maxFilesize.value != [] && 'a' <= ds.maxFilesize.value[0] <= 'z'
    ensures MaxFiles(ds) == 10 && MaxFilesize(ds) == Finite(10.0)
  {
    var files, size := OrDefault(ds.maxFiles, "10"), OrDefault(ds.maxFilesize, "10");
    assert files == ds.maxFiles.value && size == ds.maxFilesize.value;
    WordIsNotANumber(files);
    WordIsNotANumber(size);
  }

  /** A `data-max-files` written as a decimal numeral, possibly followed by
      text that does not start with a digit ("5", "5 files"), is that limit. */
  lemma MaxFilesOfNumeral(ds: Dataset, n: nat, t: string)
    requires ds.maxFiles == Some(Show(n) + t)
    requires t == [] || !IsDigit(t[0])
    ensures MaxFiles(ds) == n
  {
    assert OrDefault(ds.maxFiles, "10") == Show(n) + t;
    ParseIntShow(n, t);
  }

  /** A negative numeral is taken as it is: the script does not clamp it. */
  lemma MaxFilesOfNegativeNumeral(ds: Dataset, n: nat, t: string)
    requires ds.maxFiles == Some("-" + (Show(n) + t))
    requires t == [] || !IsDigit(t[0])
    ensures MaxFiles(ds) == -(n as int)
  {
    assert OrDefault(ds.maxFiles, "10") == "-" + (Show(n) + t);
    ParseIntShowNegative(n, t);
  }

  /** A `data-max-filesize` written as a decimal integer is that many megabytes. */
  lemma MaxFilesizeOfNumeral(ds: Dataset, n: nat)
    requires ds.maxFilesize == Some(Show(n))
    ensures MaxFilesize(ds) == Finite(n as real)
  {
    assert OrDefault(ds.maxFilesize, "10") == Show(n);
    ParseFloatShow(n);
  }

  /** A word that starts with a lower-case letter is NaN to both parsers. */
  lemma WordIsNotANumber(w: string)
    requires w != [] && 'a' <= w[0] <= 'z'
    ensures ParseInt(w).None? && ParseFloat(w) == NaN
  {
    TrimStartOfNonSpace(w);
    assert SplitSign(w) == (false, w);
    ParseIntNaNIff(w);
    ParseFloatNaNIff(w);
  }

  /** The Dropzone options the script derives from the attributes. */
  datatype Options = Options(maxFiles: int, maxFilesize: Num, dimensions: Size, preResize: bool, reloadOnSuccess: bool)

  function AreaOptions(ds: Dataset): (o: Options)
    ensures o.maxFilesize != NaN
    ensures o.preResize <==> ds.preResize == Some("true")
    ensures o.reloadOnSuccess <==> ds.reloadOnSuccess == Some("true")
  {
    Options(MaxFiles(ds), MaxFilesize(ds), ParseDimensions(ds.dimensions),
            ds.preResize == Some("true"), ds.reloadOnSuccess == Some("true"))
  }

  // ---------------------------------------------------------------------------
  // Pre-resize in the browser (lines 209-233)
  // ---------------------------------------------------------------------------

  /** `a / b` on JavaScript numbers for integer operands. */
  function JsDivide(a: int, b: int): (r: Num)
    ensures b != 0 ==> r == Finite(a as real / b as real)
    ensures b == 0 ==> (r == NaN <==> a == 0)
  {
    if b != 0 then Finite(a as real / b as real)
    else if a == 0 then NaN
    else Infinite(a < 0)
  }

  predicate LessThan(x: Num, y: Num)
    requires x != NaN && y != NaN
  {
    match (x, y)
    case (Finite(a), Finite(b)) => a < b
    case (Infinite(n), Finite(_)) => n
    case (Finite(_), Infinite(n)) => !n
    case (Infinite(n), Infinite(m)) => n && !m
    case _ => false
  }

  /** `Math.min(x, y)`: NaN wins. */
  function JsMin(x: Num, y: Num): Num {
    if x == NaN || y == NaN then NaN else if LessThan(y, x) then y else x
  }

  /** `x >= 1`: false for NaN. */
  predicate AtLeastOne(x: Num) {
    match x
    case NaN => false
    case Finite(v) => v >= 1.0
    case Infinite(negative) => !negative
  }

  /** `Math.round(x)` for a finite value: the nearest integer, halves up. */
  function Round(x: real): (n: int)
    ensures n as real - 0.5 <= x < n as real + 0.5
  {
    (x + 0.5).Floor
  }

  /** `n * x` for the natural size `n` and a JavaScript number. */
  function Scale(n: nat, x: Num): Num {
    match x
    case NaN => NaN
    case Finite(v) => Finite(n as real * v)
    case Infinite(negative) => if n == 0 then NaN else Infinite(negative)
  }

  function RoundNum(x: Num): Num {
    match x
    case Finite(v) => Finite(Round(v) as real)
    case _ => x
  }

  /** What `transformFile` hands to Dropzone: the file itself, or a canvas
      of the scaled size encoded with the file's own type. */
  datatype Transform =
    | PassThrough
    | Redraw(width: Num, height: Num, outputType: string, quality: Option<real>)

  /** The transform for an image of natural size `nw`x`nh`, a target size,
      the file's MIME type and the configured quality (0-100). */
  function TransformFile(nw: nat, nh: nat, target: Size, fileType: string, quality: int): Transform {
    var ratio := JsMin(JsDivide(target.width, nw), JsDivide(target.height, nh));
    if AtLeastOne(ratio) then PassThrough
    else
      var outputType := if fileType == "image/png" then "image/png" else fileType;
      Redraw(RoundNum(Scale(nw, ratio)), RoundNum(Scale(nh, ratio)), outputType,
             if fileType == "image/png" then None else Some(quality as real / 100.0))
  }

  lemma AtLeastOneOfDivide(a: int, b: nat)
    ensures AtLeastOne(JsDivide(a, b)) <==> b <= a && !(b == 0 && a == 0)
  {
    if b > 0 {
      QuotientAtLeastOne(a as real, b as real);
    }
  }

  lemma QuotientAtLeastOne(x: real, y: real)
    requires y > 0.0
    ensures x / y >= 1.0 <==> x >= y
  {
    var q := x / y;
    assert q * y == x;
    if q >= 1.0 {
      assert (q - 1.0) * y >= 0.0;
    } else {
      assert (1.0 - q) * y > 0.0;
    }
  }

  lemma AtLeastOneOfMin(x: Num, y: Num)
    ensures AtLeastOne(JsMin(x, y)) <==> AtLeastOne(x) && AtLeastOne(y)
  {
  }

  /** The file is passed through unchanged exactly when the image already
      fits the target in both directions (a zero side against a zero target
      makes the ratio NaN, which does not fit). */
  lemma PassThroughIff(nw: nat, nh: nat, target: Size, fileType: string, quality: int)
    ensures TransformFile(nw, nh, target, fileType, quality) == PassThrough <==>
            && nw <= target.width && nh <= target.height
            && !(nw == 0 && target.width == 0) && !(nh == 0 && target.height == 0)
  {
    AtLeastOneOfDivide(target.width, nw);
    AtLeastOneOfDivide(target.height, nh);
    AtLeastOneOfMin(JsDivide(target.width, nw), JsDivide(target.height, nh));
  }

  /** The canvas keeps the file's type; only PNG is encoded without a
      quality argument. */
  lemma RedrawKeepsType(nw: nat, nh: nat, target: Size, fileType: string, quality: int)
    ensures var t := TransformFile(nw, nh, target, fileType, quality);
            t.Redraw? ==> t.outputType == fileType && (t.quality.None? <==> fileType == "image/png")
  {
  }

  /** For a positive image and a positive target that it does not fit, the
      rounded canvas still fits the target, does not grow the image, and
      meets the target in at least one direction. */
  lemma RedrawFitsTarget(nw: nat, nh: nat, target: Size, fileType: string, quality: int)
    requires nw > 0 && nh > 0 && target.width > 0 && target.height > 0
    requires TransformFile(nw, nh, target, fileType, quality) != PassThrough
    ensures var t := TransformFile(nw, nh, target, fileType, quality);
            && t.width.Finite? && t.height.Finite?
            && t.width.value <= target.width as real && t.height.value <= target.height as real
            && t.width.value <= nw as real && t.height.value <= nh as real
            && (t.width.value == target.width as real || t.height.value == target.height as real)
  {
    var r := RatioOf(nw, nh, target);
    PassThroughIff(nw, nh, target, fileType, quality);
    RatioBelowOne(nw, nh, target);
    RedrawOfRatio(nw, nh, target, fileType, quality, r);
    RoundedSides(nw, nh, target, r);
  }

  /** The canvas sides are the natural sides scaled by a finite ratio. */
  lemma RedrawOfRatio(nw: nat, nh: nat, target: Size, fileType: string, quality: int, r: real)
    requires JsMin(JsDivide(target.width, nw), JsDivide(target.height, nh)) == Finite(r)
    ensures var t := TransformFile(nw, nh, target, fileType, quality);
            t.Redraw? ==> t.width == Finite(Round(nw as real * r) as real) && t.height == Finite(Round(nh as real * r) as real)
  {
    ScaleFinite(nw, r);
    ScaleFinite(nh, r);
  }

  lemma ScaleFinite(n: nat, r: real)
    ensures RoundNum(Scale(n, Finite(r))) == Finite(Round(n as real * r) as real)
  {
    var x := n as real * r;
    assert Scale(n, Finite(r)) == Finite(x);
    assert RoundNum(Finite(x)) == Finite(Round(x) as real);
  }

  lemma RoundedSides(nw: nat, nh: nat, target: Size, r: real)
    requires nw > 0 && nh > 0 && target.width > 0 && target.height > 0
    requires r == RatioOf(nw, nh, target) && r < 1.0
    ensures var w := Round(nw as real * r);
            var h := Round(nh as real * r);
            w <= target.width && h <= target.height && w <= nw && h <= nh && (w == target.width || h == target.height)
  {
    SideFits(nw, target.width, r);
    SideFits(nh, target.height, r);
    if r == target.width as real / nw as real {
      SideHits(nw, target.width);
    } else {
      SideHits(nh, target.height);
    }
  }

  /** The finite ratio of a positive image against a positive target. */
  function RatioOf(nw: nat, nh: nat, target: Size): (r: real)
    requires nw > 0 && nh > 0
    ensures JsMin(JsDivide(target.width, nw), JsDivide(target.height, nh)) == Finite(r)
    ensures r <= target.width as real / nw as real && r <= target.height as real / nh as real
    ensures r == target.width as real / nw as real || r == target.height as real / nh as real
  {
    var rw := target.width as real / nw as real;
    var rh := target.height as real / nh as real;
    if rh < rw then rh else rw
  }

  lemma RatioBelowOne(nw: nat, nh: nat, target: Size)
    requires nw > 0 && nh > 0
    requires !(nw <= target.width && nh <= target.height)
    ensures RatioOf(nw, nh, target) < 1.0
  {
    QuotientAtLeastOne(target.width as real, nw as real);
    QuotientAtLeastOne(target.height as real, nh as real);
  }

  /** One side scaled by a ratio below one and at most `t / n`, then rounded,
      stays within both `t` and `n`. */
  lemma SideFits(n: nat, t: int, r: real)
    requires n > 0 && t > 0 && r <= t as real / n as real && r < 1.0
    ensures Round(n as real * r) <= t && Round(n as real * r) <= n
  {
    var x := n as real * r;
    MulDivCancel(t as real, n as real);
    ScaleMonotone(n as real, r, t as real / n as real);
    assert x <= t as real;
    ScaleMonotone(n as real, r, 1.0);
    assert x <= n as real;
    RoundBelowInteger(x, t);
    RoundBelowInteger(x, n);
  }

  /** The side that sets the ratio lands exactly on the target. */
  lemma SideHits(n: nat, t: int)
    requires n > 0
    ensures Round(n as real * (t as real / n as real)) == t
  {
    MulDivCancel(t as real, n as real);
    RoundOfInteger(t);
  }

  lemma MulDivCancel(t: real, n: real)
    requires n > 0.0
    ensures n * (t / n) == t
  {
  }

  lemma ScaleMonotone(n: real, a: real, b: real)
    requires n >= 0.0 && a <= b
    ensures n * a <= n * b
  {
    assert n * b - n * a == n * (b - a);
  }

  /** Rounding a value at most an integer stays at most that integer. */
  lemma RoundBelowInteger(x: real, m: int)
    requires x <= m as real
    ensures Round(x) <= m
  {
  }

  lemma RoundOfInteger(m: int)
    ensures Round(m as real) == m
  {
  }

  // ---------------------------------------------------------------------------
  // The `sending` handler (lines 117-131)
  // ---------------------------------------------------------------------------

  /** A data attribute as `FormData.append` writes it: a missing one becomes
      the string "undefined". */
  function AttributeText(a: Option<string>): string {
    a.GetOr("undefined")
  }

  /** `String(parseInt(modelId, 10))`: "NaN" exactly when the attribute
      holds no integer, and otherwise a numeral that reads back as the same
      integer. */
  function ModelIdText(a: Option<string>): (r: string)
    ensures r == "NaN" <==> ParseInt(AttributeText(a)).None?
    ensures r != "NaN" ==> ParseInt(r) == ParseInt(AttributeText(a))
  {
    match ParseInt(AttributeText(a))
    case None => "NaN"
    case Some(n) =>
      ShowIntReadsBack(n);
      ShowInt(n)
  }

  /** The numeral of an integer is not "NaN", and parseInt reads it back. */
  lemma ShowIntReadsBack(i: int)
    ensures ShowInt(i) != "NaN" && ParseInt(ShowInt(i)) == Some(i)
  {
    ShowIntIsNotNaN(i);
    if i < 0 {
      ShowNegativeReadsBack(-i);
    } else {
      ShowReadsBack(i);
    }
  }

  lemma ShowIntIsNotNaN(i: int)
    ensures ShowInt(i) != "NaN"
  {
    var s := ShowInt(i);
    assert s[0] == '-' || IsDigit(s[0]);
    assert s[0] != "NaN"[0];
  }

  lemma ShowReadsBack(n: nat)
    ensures ParseInt(Show(n)) == Some(n as int)
  {
    ParseIntShow(n, []);
    assert Show(n) + [] == Show(n);
  }

  lemma ShowNegativeReadsBack(n: nat)
    requires n > 0
    ensures ParseInt(ShowInt(-(n as int))) == Some(-(n as int))
  {
    ParseIntShowNegative(n, []);
    assert Show(n) + [] == Show(n);
    assert ShowInt(-(n as int)) == "-" + (Show(n) + []);
  }

  /** A saved model's id, written in decimal by the template, is sent as it is. */
  lemma ModelIdOfNumeral(n: nat)
    ensures ModelIdText(Some(Show(n))) == Show(n)
  {
    ShowReadsBack(n);
  }

  /** An unsaved model renders an empty attribute, and its id is sent as "NaN";
      so is a missing attribute. */
  lemma ModelIdOfUnsaved()
    ensures ModelIdText(Some("")) == "NaN" && ModelIdText(None) == "NaN"
  {
    assert TrimStart("") == "";
    WordIsNotANumber("undefined");
  }

  /** The form fields appended to every upload, in order. */
  function SendingFields(ds: Dataset): seq<(string, string)> {
    [("model_id", ModelIdText(ds.modelId)),
     ("model_type", AttributeText(ds.modelType)),
     ("directory", AttributeText(ds.directory)),
     ("dimensions", OrDefault(ds.dimensions, "1920x1080")),
     ("keep_original_name", if ds.keepOriginalName == Some("true") then "1" else "0")]
    + (if ds.locale.Some? && ds.locale.value != "" then [("locale", ds.locale.value)] else [])
  }

  /** A field's value, when the field is present. */
  function FieldValue(fields: seq<(string, string)>, name: string): Option<string> {
    if fields == [] then None
    else if fields[0].0 == name then Some(fields[0].1)
    else FieldValue(fields[1..], name)
  }

  /** Fields with other names before position `k` are skipped. */
  lemma {:induction false} FieldValueSkips(fields: seq<(string, string)>, name: string, k: nat)
    requires k <= |fields| && forall i :: 0 <= i < k ==> fields[i].0 != name
    ensures FieldValue(fields, name) == FieldValue(fields[k..], name)
  {
    if k > 0 {
      FieldValueSkips(fields[1..], name, k - 1);
      assert fields[1..][k - 1..] == fields[k..];
    }
  }

  /** The dimensions field is always sent and never empty; the locale field
      is sent exactly when the attribute is non-empty, with its value. */
  lemma SendingFieldsDefaults(ds: Dataset)
    ensures var f := SendingFields(ds);
            && FieldValue(f, "dimensions") == Some(OrDefault(ds.dimensions, "1920x1080"))
            && FieldValue(f, "dimensions").value != ""
            && (FieldValue(f, "locale").Some? <==> ds.locale.Some? && ds.locale.value != "")
            && (FieldValue(f, "locale").Some? ==> FieldValue(f, "locale") == ds.locale)
            && FieldValue(f, "keep_original_name") in {Some("1"), Some("0")}
  {
    var f := SendingFields(ds);
    assert f[0].0 == "model_id" && f[1].0 == "model_type" && f[2].0 == "directory";
    assert f[3].0 == "dimensions" && f[4].0 == "keep_original_name";
    FieldValueSkips(f, "dimensions", 3);
    FieldValueSkips(f, "keep_original_name", 4);
    FieldValueSkips(f, "locale", 5);
    assert FieldValue(f[3..], "dimensions") == Some(f[3].1);
    assert FieldValue(f[4..], "keep_original_name") == Some(f[4].1);
    if ds.locale.Some? && ds.locale.value != "" {
      assert f[5..] == [("locale", ds.locale.value)];
    } else {
      assert f[5..] == [];
    }
  }

  /** The first three fields carry the owner and the directory: model_id is
      the attribute's parseInt in decimal (or "NaN"), and model_type and
      directory are the attributes as they are ("undefined" when absent). */
  lemma SendingFieldsOwner(ds: Dataset)
    ensures var f := SendingFields(ds);
            && FieldValue(f, "model_id") == Some(ModelIdText(ds.modelId))
            && FieldValue(f, "model_type") == Some(AttributeText(ds.modelType))
            && FieldValue(f, "directory") == Some(AttributeText(ds.directory))
  {
    var f := SendingFields(ds);
    assert f[0].0 == "model_id" && f[1].0 == "model_type" && f[2].0 == "directory";
    FieldValueSkips(f, "model_type", 1);
    FieldValueSkips(f, "directory", 2);
    assert FieldValue(f[1..], "model_type") == Some(f[1].1);
    assert FieldValue(f[2..], "directory") == Some(f[2].1);
  }

  /** A dimensions field the area sends makes the server skip `processImage`
      only when it is "0": JavaScript treats "0" as present, PHP's `empty`
      treats it as empty. */
  lemma SentDimensionsSkipOnlyForZero(ds: Dataset)
    ensures var d := OrDefault(ds.dimensions, "1920x1080");
            IsEmpty(Some(d)) <==> d == "0"
  {
  }
}
