/** The keyboard side of the mock: the held-key map both variants keep, the
    part of JavaScript's string-to-number conversion the key handlers rely
    on, the commands a key press can mean, and the binding tables that tie
    keys to controls. */
module Keys {
  import opened Common
  import opened Motion

  /** `keyStateByName`: key name to held flag; an absent key was never pressed. */
  type KeyState = map<string, bool>

  /** `!!keyStateByName[k]`. */
  predicate Held(keys: KeyState, k: string) {
    k in keys && keys[k]
  }

  /** `names.some(k => !!keyStateByName[k])`. */
  predicate AnyHeld(keys: KeyState, names: seq<string>) {
    exists k :: k in names && Held(keys, k)
  }

  /** The keyup handler: `keyStateByName[key] = false`, for every key. */
  function Release(keys: KeyState, key: string): (r: KeyState)
    ensures !Held(r, key)
    ensures forall k :: k != key ==> Held(r, k) == Held(keys, k)
    ensures r.Keys == keys.Keys + {key}
  {
    keys[key := false]
  }

  /** The fallback branch of the keydown handler: `keyStateByName[key] = true`. */
  function Press(keys: KeyState, key: string): (r: KeyState)
    ensures Held(r, key)
    ensures forall k :: k != key ==> Held(r, k) == Held(keys, k)
    ensures r.Keys == keys.Keys + {key}
  {
    keys[key := true]
  }

  /** Pressing then releasing a key leaves it not held, whatever it was before. */
  lemma PressThenRelease(keys: KeyState, key: string)
    ensures Release(Press(keys, key), key) == keys[key := false]
  {
  }

  /** An axis binding `axis(index, positiveKeyName, negativeKeyName)`. */
  datatype AxisBinding = AxisBinding(axis: nat, positive: string, negative: string)

  /** One entry of a binding table: an axis, a digital button or an analog
      button, each with the keys that drive it. */
  datatype Binding =
    | OnAxis(binding: AxisBinding)
    | Digital(button: nat, names: seq<string>)
    | Analog(button: nat, names: seq<string>)

  /** `isPositive - isNegative` for an axis binding. */
  function Direction(keys: KeyState, b: AxisBinding): (d: int)
    ensures -1 <= d <= 1
    ensures d == 1 <==> Held(keys, b.positive) && !Held(keys, b.negative)
    ensures d == -1 <==> Held(keys, b.negative) && !Held(keys, b.positive)
  {
    (if Held(keys, b.positive) then 1 else 0) - (if Held(keys, b.negative) then 1 else 0)
  }

  /** The characters JavaScript's string-to-number conversion trims. */
  predicate IsJsSpace(c: char) {
    c == ' ' || c == '\t' || c == '\n' || c == '\r' || c == '\U{000B}' || c == '\U{000C}'
    || c == '\U{00A0}' || c == '\U{1680}' || ('\U{2000}' <= c <= '\U{200A}')
    || c == '\U{2028}' || c == '\U{2029}' || c == '\U{202F}' || c == '\U{205F}'
    || c == '\U{3000}' || c == '\U{FEFF}'
  }

  function TrimStart(s: string): (r: string)
    ensures |r| <= |s| && r == s[|s| - |r|..]
    ensures r == [] || !IsJsSpace(r[0])
    ensures forall i :: 0 <= i < |s| - |r| ==> IsJsSpace(s[i])
  {
    if |s| > 0 && IsJsSpace(s[0]) then TrimStart(s[1..]) else s
  }

  function TrimEnd(s: string): (r: string)
    ensures |r| <= |s| && r == s[..|r|]
    ensures r == [] || !IsJsSpace(r[|r| - 1])
    ensures forall i :: |r| <= i < |s| ==> IsJsSpace(s[i])
  {
    if |s| > 0 && IsJsSpace(s[|s| - 1]) then TrimEnd(s[..|s| - 1]) else s
  }

  predicate AllDigits(s: string) {
    forall i :: 0 <= i < |s| ==> '0' <= s[i] <= '9'
  }

  /** The value of a string of decimal digits. */
  function DecimalValue(s: string): nat
    requires AllDigits(s)
  {
    if |s| == 0 then 0
    else DecimalValue(s[..|s| - 1]) * 10 + (s[|s| - 1] as int - '0' as int)
  }

  /** `+key`, for the strings a key name can be: surrounding white space is
      ignored, an empty or all-blank string is 0, a run of decimal digits is
      its value, anything else is NaN (`None`). */
  function ToNumber(key: string): Option<nat> {
    var t := TrimEnd(TrimStart(key));
    if AllDigits(t) then Some(DecimalValue(t)) else None
  }

  /** Only names made of blanks and digits convert to a number, and a name
      that starts with anything else is NaN. */
  lemma ToNumberShape(key: string)
    ensures ToNumber(key).Some? ==> forall i :: 0 <= i < |key| ==> IsJsSpace(key[i]) || '0' <= key[i] <= '9'
    ensures |key| > 0 && !IsJsSpace(key[0]) && !('0' <= key[0] <= '9') ==> ToNumber(key) == None
  {
    var s := TrimStart(key);
    var t := TrimEnd(s);
    if AllDigits(t) {
      forall i | 0 <= i < |key| ensures IsJsSpace(key[i]) || '0' <= key[i] <= '9' {
        var d := |key| - |s|;
        if i >= d {
          assert key[i] == s[i - d];
          if i - d < |t| {
            assert s[i - d] == t[i - d];
          }
        }
      }
    }
    if |key| > 0 && !IsJsSpace(key[0]) && !('0' <= key[0] <= '9') {
      assert s == key;
      assert |t| > 0 && t[0] == key[0];
    }
  }

  /** The one-character key name of a digit. */
  function DigitKey(d: nat): (k: string)
    requires d < 10
    ensures |k| == 1 && '0' <= k[0] <= '9'
  {
    [('0' as int + d) as char]
  }

  /** A digit key converts to its digit. */
  lemma ToNumberOfDigit(d: nat)
    requires d < 10
    ensures ToNumber(DigitKey(d)) == Some(d)
  {
    var k := DigitKey(d);
    assert !IsJsSpace(k[0]);
    assert TrimStart(k) == k;
    assert TrimEnd(k) == k;
    assert AllDigits(k);
    assert k[..0] == [];
    assert DecimalValue(k) == DecimalValue([]) * 10 + (k[0] as int - '0' as int);
  }

  /** The key `'0'` converts to 0. */
  lemma ToNumberOfZero()
    ensures ToNumber("0") == Some(0)
  {
    ToNumberOfDigit(0);
    assert DigitKey(0) == "0";
  }

  /** A key name made only of white space (the space bar's `' '` among
      them) converts to 0. */
  lemma ToNumberOfBlank(key: string)
    requires forall i :: 0 <= i < |key| ==> IsJsSpace(key[i])
    ensures ToNumber(key) == Some(0)
  {
    assert TrimStart(key) == [];
  }

  /** A named key whose first character is a letter converts to NaN. */
  lemma ToNumberOfName(key: string)
    requires |key| > 0 && ('a' <= key[0] <= 'z' || 'A' <= key[0] <= 'Z')
    ensures ToNumber(key) == None
  {
    var t := TrimEnd(TrimStart(key));
    assert TrimStart(key) == key;
    assert t == key[..|t|];
    assert !IsJsSpace(key[0]);
    assert t[0] == key[0];
  }

  /** What a keydown means to the mock. */
  datatype Command =
    | SelectPad(index: nat)
    | SetSpeed(multiplier: Multiplier)
    | Hold(key: string)

  /** `(n - 4) / 5` for the speed keys 5 to 9. */
  function SpeedFactor(n: nat): (f: real)
    requires 5 <= n <= 9
    ensures 0.0 < f <= 1.0
  {
    (n - 4) as real / 5.0
  }

  /** The keyboard command surface: digits 1 to 4 select a pad, 5 to 9 set
      the multiplier to `(digit - 4) / 5`, 0 makes it unbounded. */
  function DigitCommand(d: nat): Command
    requires d < 10
  {
    if 1 <= d <= 4 then SelectPad(d - 1)
    else if d >= 5 then SetSpeed(Finite((d - 4) as real / 5.0))
    else SetSpeed(Unbounded)
  }
}
