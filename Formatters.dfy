/** The as-you-type input handlers of the lead form: the ZIP field's `input`,
    `keypress` and `paste` handlers, the phone field's progressive mask and the
    name fields' capitalisation on blur. Each handler is a function from what
    the field holds to what it holds afterwards. */
module Formatters {
  import opened JsString

  const ZipLength := 5

  /** `/^\d{5}$/`, the page's ZIP pattern. */
  predicate IsZip(s: string) {
    |s| == ZipLength && AllDigits(s)
  }

  /** The class the ZIP field carries: `valid`, `error`, or neither. */
  datatype ZipMark = Valid | Error | Unmarked

  /** What the ZIP field shows: its value and its class. */
  datatype ZipField = ZipField(value: string, mark: ZipMark)

  /** The ZIP field's `input` handler, run on the field's raw value. The value
      is cut to five digits, but the class is judged on every digit typed, so a
      sixth digit turns the field to `error` while it still holds five. */
  function OnZipInput(raw: string): (f: ZipField)
    ensures AllDigits(f.value) && |f.value| <= ZipLength
    ensures |f.value| == Min(|Digits(raw)|, ZipLength)
    ensures f.value == Digits(raw)[..|f.value|]
    ensures f.mark == Valid <==> |Digits(raw)| == ZipLength
    ensures f.mark == Error <==> (|Digits(raw)| > 0 && |Digits(raw)| != ZipLength)
    ensures f.mark == Unmarked <==> Digits(raw) == []
  {
    var value := Digits(raw);
    var mark :=
      if |value| == ZipLength && IsZip(value) then Valid
      else if |value| > 0 then Error
      else Unmarked;
    ZipField(value[..Min(|value|, ZipLength)], mark)
  }

  /** Running the `input` handler again on what it has just produced keeps the
      value; only the `error` mark of an entry of six or more digits changes,
      to `valid`. */
  lemma {:induction false} ZipInputStable(raw: string)
    ensures OnZipInput(OnZipInput(raw).value).value == OnZipInput(raw).value
    ensures OnZipInput(OnZipInput(raw).value).mark == Valid <==> |Digits(raw)| >= ZipLength
    ensures |Digits(raw)| <= ZipLength ==> OnZipInput(OnZipInput(raw).value) == OnZipInput(raw)
  {
  }

  /** The `paste` handler: the field takes the first five digits of the pasted
      text, replacing what it held, and then the `input` handler runs. */
  function OnZipPaste(pasted: string): (f: ZipField)
    ensures f.value == Digits(pasted)[..Min(|Digits(pasted)|, ZipLength)]
    ensures f.mark == Valid <==> |Digits(pasted)| >= ZipLength
    ensures f.mark == Error <==> 0 < |Digits(pasted)| < ZipLength
    ensures f.mark == Unmarked <==> Digits(pasted) == []
  {
    var numbersOnly := Digits(pasted)[..Min(|Digits(pasted)|, ZipLength)];
    OnZipInput(numbersOnly)
  }

  /** Typing `c` with the caret at `caret`. The `keypress` handler's test
      `/[0-9]/.test(char)` lets only an ASCII digit through: a refused key
      leaves the field as it was (no `input` event follows); an accepted one
      is inserted and the `input` handler runs. */
  function OnZipKey(f: ZipField, caret: nat, c: char): (g: ZipField)
    requires caret <= |f.value|
    ensures !IsDigit(c) ==> g == f
    ensures IsDigit(c) ==> g == OnZipInput(f.value[..caret] + [c] + f.value[caret..])
  {
    if IsDigit(c) then OnZipInput(f.value[..caret] + [c] + f.value[caret..]) else f
  }

  /** A sixth digit typed into a full, valid field marks it `error`, although the
      field still holds five digits. */
  lemma {:induction false} SixthDigitMarksError(f: ZipField, caret: nat, c: char)
    requires IsZip(f.value) && caret <= |f.value| && IsDigit(c)
    ensures OnZipKey(f, caret, c).mark == Error
    ensures IsZip(OnZipKey(f, caret, c).value)
  {
    var raw := f.value[..caret] + [c] + f.value[caret..];
    assert AllDigits(raw) by {
      forall i | 0 <= i < |raw| ensures IsDigit(raw[i]) {
        if i < caret { assert raw[i] == f.value[i]; }
        else if i > caret { assert raw[i] == f.value[i - 1]; }
      }
    }
    assert Digits(raw) == raw;
  }

  const PhoneDigits := 10

  /** The shape the phone mask fills from the left: `#` stands for a digit. */
  const PhoneTemplate := "(###) ###-####"

  /** `r` is a left part of the template with a digit in each `#` position. */
  predicate FitsTemplate(r: string) {
    && |r| <= |PhoneTemplate|
    && forall i :: 0 <= i < |r| ==>
         if PhoneTemplate[i] == '#' then IsDigit(r[i]) else r[i] == PhoneTemplate[i]
  }

  /** How much of the template `n` digits fill: nothing for none, up to the
      last digit for fewer than four or more than six, and up to and including
      the `) ` after the area code for four to six (no dash is shown yet). */
  function MaskLength(n: nat): nat {
    if n == 0 then 0
    else if n <= 3 then n + 1
    else if n <= 6 then n + 3
    else Min(n, PhoneDigits) + 4
  }

  /** The phone field's `input` handler on its digits. */
  function Mask(d: string): string
    requires AllDigits(d)
  {
    var n := |d|;
    if n == 0 then d
    else if n <= 3 then "(" + d
    else if n <= 6 then "(" + d[..3] + ") " + d[3..]
    else "(" + d[..3] + ") " + d[3..6] + "-" + d[6..Min(n, PhoneDigits)]
  }

  /** The phone field's `input` handler: the digits of what was typed, masked as
      `(ddd) ddd-dddd` as far as they go, beyond the tenth dropped. */
  function OnPhoneInput(raw: string): (r: string)
    ensures FitsTemplate(r)
    ensures |r| == MaskLength(|Digits(raw)|)
    ensures Digits(r) == Digits(raw)[..Min(|Digits(raw)|, PhoneDigits)]
  {
    var d := Digits(raw);
    MaskFacts(d);
    Mask(d)
  }

  lemma {:induction false} MaskFacts(d: string)
    requires AllDigits(d)
    ensures FitsTemplate(Mask(d))
    ensures |Mask(d)| == MaskLength(|d|)
    ensures Digits(Mask(d)) == d[..Min(|d|, PhoneDigits)]
  {
    MaskFits(d);
    MaskKeepsDigits(d);
  }

  lemma {:induction false} MaskFits(d: string)
    requires AllDigits(d)
    ensures FitsTemplate(Mask(d))
  {
    var n, r := |d|, Mask(d);
    if 0 < n <= 3 {
      assert forall i :: 1 <= i < |r| ==> r[i] == d[i - 1];
    } else if 3 < n <= 6 {
      assert forall i :: 1 <= i < 4 ==> r[i] == d[i - 1];
      assert forall i :: 6 <= i < |r| ==> r[i] == d[i - 3];
    } else if n > 6 {
      assert forall i :: 1 <= i < 4 ==> r[i] == d[i - 1];
      assert forall i :: 6 <= i < 9 ==> r[i] == d[i - 3];
      assert forall i :: 10 <= i < |r| ==> r[i] == d[i - 4];
    }
  }

  lemma {:induction false} MaskKeepsDigits(d: string)
    requires AllDigits(d)
    ensures Digits(Mask(d)) == d[..Min(|d|, PhoneDigits)]
  {
    var n := |d|;
    if 0 < n <= 3 {
      Punctuation();
      DigitsAppend("(", d);
    } else if 3 < n <= 6 {
      MaskKeepsDigitsMiddle(d);
    } else if n > 6 {
      MaskKeepsDigitsLong(d);
    }
  }

  lemma {:induction false} MaskKeepsDigitsMiddle(d: string)
    requires AllDigits(d) && 3 < |d| <= 6
    ensures Digits("(" + d[..3] + ") " + d[3..]) == d
  {
    var a, b := d[..3], d[3..];
    var x1 := "(" + a;
    var x2 := x1 + ") ";
    Punctuation();
    DigitsAppend("(", a);
    assert Digits(x1) == a;
    DigitsAppend(x1, ") ");
    assert Digits(x2) == a;
    DigitsAppend(x2, b);
    assert a + b == d;
  }

  lemma {:induction false} MaskKeepsDigitsLong(d: string)
    requires AllDigits(d) && 6 < |d|
    ensures Digits("(" + d[..3] + ") " + d[3..6] + "-" + d[6..Min(|d|, PhoneDigits)]) == d[..Min(|d|, PhoneDigits)]
  {
    var m := Min(|d|, PhoneDigits);
    var a, b, c := d[..3], d[3..6], d[6..m];
    var x1 := "(" + a;
    var x2 := x1 + ") ";
    var x3 := x2 + b;
    var x4 := x3 + "-";
    Punctuation();
    DigitsAppend("(", a);
    assert Digits(x1) == a;
    DigitsAppend(x1, ") ");
    assert Digits(x2) == a;
    DigitsAppend(x2, b);
    assert Digits(x3) == a + b;
    DigitsAppend(x3, "-");
    assert Digits(x4) == a + b;
    DigitsAppend(x4, c);
    assert a + b + c == d[..m];
  }

  /** The template's punctuation holds no digits. */
  lemma {:induction false} Punctuation()
    ensures Digits("(") == [] && Digits(") ") == [] && Digits("-") == []
  {
  }

  /** Masking is idempotent: the handler finds its own output unchanged. */
  lemma {:induction false} PhoneMaskIdempotent(raw: string)
    ensures OnPhoneInput(OnPhoneInput(raw)) == OnPhoneInput(raw)
  {
    var d := Digits(raw);
    var m := Min(|d|, PhoneDigits);
    var e := Digits(OnPhoneInput(raw));
    assert e == d[..m];
    if |d| > 6 {
      assert e[..3] == d[..3] && e[3..6] == d[3..6] && e[6..Min(|e|, PhoneDigits)] == d[6..m];
    } else {
      assert e == d;
    }
  }

  /** The name fields' `blur` handler: an empty value is left alone, otherwise
      the first character is upper-cased and the rest lower-cased. */
  function OnNameBlur(v: string): (r: string)
    ensures |r| == |v|
    ensures |v| > 0 ==> r[0] == ToUpper(v[0])
    ensures forall i :: 1 <= i < |v| ==> r[i] == ToLower(v[i])
  {
    if v == [] then v else [ToUpper(v[0])] + LowerAll(v[1..])
  }

  /** A value the blur handler leaves as it is: nothing to upper-case in front,
      nothing to lower-case behind. */
  predicate IsCapitalized(v: string) {
    && (|v| > 0 ==> !IsAsciiLower(v[0]))
    && forall i :: 1 <= i < |v| ==> !IsAsciiUpper(v[i])
  }

  /** The handler's fixed points are the capitalised values, and its output is
      always one, so a second blur never changes the name again. */
  lemma {:induction false} NameBlurFixedPoints(v: string)
    ensures OnNameBlur(v) == v <==> IsCapitalized(v)
    ensures IsCapitalized(OnNameBlur(v))
    ensures OnNameBlur(OnNameBlur(v)) == OnNameBlur(v)
  {
    var r := OnNameBlur(v);
    if IsCapitalized(v) {
      assert forall i :: 0 <= i < |v| ==> r[i] == v[i];
    }
    if r == v {
      forall i | 1 <= i < |v| ensures !IsAsciiUpper(v[i]) {
        assert r[i] == ToLower(v[i]);
      }
    }
    assert IsCapitalized(r);
    var rr := OnNameBlur(r);
    assert forall i :: 0 <= i < |r| ==> rr[i] == r[i];
  }

  /** The handler loses inner capitals: "McDonald" becomes "Mcdonald". */
  lemma {:induction false} NameBlurLosesInnerCapitals()
    ensures OnNameBlur("McDonald") == "Mcdonald"
    ensures !IsCapitalized("McDonald")
  {
    var r := OnNameBlur("McDonald");
    assert "McDonald"[2] == 'D';
    assert r[2] == 'd';
    assert r == "Mcdonald";
  }
}
