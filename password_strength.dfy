/** The password strength indicator (components/PasswordStrengthIndicator.tsx): five
    requirements, a strength equal to how many hold, and the colour and text shown for it. */
module PasswordStrength {
  import opened Options

  /** The five requirements, in the order the checklist shows them. */
  datatype Requirement = MinLength | Uppercase | Lowercase | Digit | Special

  const Requirements: seq<Requirement> := [MinLength, Uppercase, Lowercase, Digit, Special]

  function RequirementText(r: Requirement): string
  {
    match r
    case MinLength => "At least 8 characters"
    case Uppercase => "One uppercase letter"
    case Lowercase => "One lowercase letter"
    case Digit => "One number"
    case Special => "One special character"
  }

  /** The characters a regular-expression `.` does not match. */
  predicate LineTerminator(c: char)
  {
    c == '\n' || c == '\r' || c == '\U{2028}' || c == '\U{2029}'
  }

  /** The characters of the class `[!@#$%^&*()_+\-=\[\]{};':"\\|,.<>\/?]`. */
  const SpecialChars: string := "!@#$%^&*()_+-=[]{};':\"\\|,.<>/?"

  /** How many UTF-16 code units JavaScript stores a character in: two (a surrogate pair)
      for one outside the Basic Multilingual Plane, one otherwise. */
  function CodeUnits(c: char): nat
  {
    if c as int >= 0x1_0000 then 2 else 1
  }

  /** JavaScript's `length` of a string: its number of UTF-16 code units. */
  function Utf16Length(s: string): nat
  {
    if s == [] then 0 else Utf16Length(s[..|s| - 1]) + CodeUnits(s[|s| - 1])
  }

  /** `/.{8,}/` without the `u` flag, where `.` matches one UTF-16 code unit other than a
      line terminator: some stretch of characters, none of which ends a line, takes at least
      eight code units. */
  predicate HasRunOfEight(s: string)
  {
    exists i: nat, j: nat :: i <= j <= |s| && RunBetween(s, i, j)
  }

  /** The characters from index `i` up to `j` end no line and take eight code units or more. */
  predicate RunBetween(s: string, i: nat, j: nat)
  {
    && i <= j <= |s|
    && (forall k :: i <= k < j ==> !LineTerminator(s[k]))
    && Utf16Length(s[i..j]) >= 8
  }

  /** Code units add up over a concatenation. */
  lemma {:induction false} Utf16LengthAppend(a: string, b: string)
    ensures Utf16Length(a + b) == Utf16Length(a) + Utf16Length(b)
  {
    if b != [] {
      var b0 := b[..|b| - 1];
      assert (a + b)[..|a + b| - 1] == a + b0;
      Utf16LengthAppend(a, b0);
    } else {
      assert a + b == a;
    }
  }

  /** A string takes at least as many code units as characters, and exactly as many when
      all of them lie in the Basic Multilingual Plane. */
  lemma {:induction false} Utf16LengthBounds(s: string)
    ensures |s| <= Utf16Length(s) <= 2 * |s|
    ensures (forall k :: 0 <= k < |s| ==> s[k] as int < 0x1_0000) ==> Utf16Length(s) == |s|
  {
    if s != [] {
      Utf16LengthBounds(s[..|s| - 1]);
    }
  }

  /** The length requirement asks for `password.length >= 8` counted in code units; for a
      password that holds no line terminator that is all it asks. */
  lemma MinLengthMeaning(s: string)
    ensures Met(MinLength, s) ==> Utf16Length(s) >= 8
    ensures (forall k :: 0 <= k < |s| ==> !LineTerminator(s[k])) ==>
              (Met(MinLength, s) <==> Utf16Length(s) >= 8)
  {
    if Met(MinLength, s) {
      var i: nat, j: nat :| i <= j <= |s| && RunBetween(s, i, j);
      assert s[..i] + s[i..j] == s[..j];
      assert s[..j] + s[j..] == s;
      Utf16LengthAppend(s[..i], s[i..j]);
      Utf16LengthAppend(s[..j], s[j..]);
    }
    if (forall k :: 0 <= k < |s| ==> !LineTerminator(s[k])) && Utf16Length(s) >= 8 {
      assert s[0..|s|] == s;
      assert RunBetween(s, 0, |s|);
    }
  }

  predicate HasCharIn(s: string, lo: char, hi: char)
  {
    exists i :: 0 <= i < |s| && lo <= s[i] <= hi
  }

  predicate HasSpecial(s: string)
  {
    exists i :: 0 <= i < |s| && s[i] in SpecialChars
  }

  /** `req.regex.test(password)`. */
  predicate Met(r: Requirement, s: string)
  {
    match r
    case MinLength => HasRunOfEight(s)
    case Uppercase => HasCharIn(s, 'A', 'Z')
    case Lowercase => HasCharIn(s, 'a', 'z')
    case Digit => HasCharIn(s, '0', '9')
    case Special => HasSpecial(s)
  }

  /** `requirements.filter((req) => req.regex.test(password))`. */
  function MetAmong(rs: seq<Requirement>, s: string): (met: seq<Requirement>)
    ensures |met| <= |rs|
    ensures forall r :: r in met <==> r in rs && Met(r, s)
  {
    if rs == [] then []
    else (if Met(rs[0], s) then [rs[0]] else []) + MetAmong(rs[1..], s)
  }

  /** `metRequirements.length`. */
  function Strength(s: string): nat
  {
    |MetAmong(Requirements, s)|
  }

  function Indicator(b: bool): nat
  {
    if b then 1 else 0
  }

  /** The strength is the number of requirements met, so it lies in 0..5, is 5 exactly when
      every requirement holds and 0 exactly when none does. */
  lemma StrengthCounts(s: string)
    ensures Strength(s) == Indicator(Met(MinLength, s)) + Indicator(Met(Uppercase, s)) + Indicator(Met(Lowercase, s))
                           + Indicator(Met(Digit, s)) + Indicator(Met(Special, s))
    ensures 0 <= Strength(s) <= 5
    ensures Strength(s) == 5 <==> forall r :: Met(r, s)
    ensures Strength(s) == 0 <==> forall r :: !Met(r, s)
  {
    var rs := Requirements;
    assert rs[4..][1..] == [];
    assert |MetAmong(rs[4..], s)| == Indicator(Met(Special, s));
    assert rs[3..][1..] == rs[4..];
    assert |MetAmong(rs[3..], s)| == Indicator(Met(Digit, s)) + |MetAmong(rs[4..], s)|;
    assert rs[2..][1..] == rs[3..];
    assert |MetAmong(rs[2..], s)| == Indicator(Met(Lowercase, s)) + |MetAmong(rs[3..], s)|;
    assert rs[1..][1..] == rs[2..];
    assert |MetAmong(rs[1..], s)| == Indicator(Met(Uppercase, s)) + |MetAmong(rs[2..], s)|;
    assert |MetAmong(rs, s)| == Indicator(Met(MinLength, s)) + |MetAmong(rs[1..], s)|;
    forall r ensures r in rs {
      match r
      case MinLength => assert rs[0] == r;
      case Uppercase => assert rs[1] == r;
      case Lowercase => assert rs[2] == r;
      case Digit => assert rs[3] == r;
      case Special => assert rs[4] == r;
    }
  }

  /** Characters outside the Basic Multilingual Plane count twice: "Ab1!" and two emoji take
      eight code units in six characters, and meet all five requirements. */
  lemma SurrogatePairsCountTwice()
    ensures Strength("Ab1!\U{1F600}\U{1F600}") == 5
  {
    var s := "Ab1!\U{1F600}\U{1F600}";
    var emoji := "\U{1F600}\U{1F600}";
    assert s == "Ab1!" + emoji;
    Utf16LengthBounds("Ab1!");
    assert emoji[..1][..0] == [];
    assert Utf16Length(emoji) == 4;
    Utf16LengthAppend("Ab1!", emoji);
    assert s[0..6] == s;
    assert RunBetween(s, 0, 6);
    assert 'A' <= s[0] <= 'Z' && 'a' <= s[1] <= 'z' && '0' <= s[2] <= '9';
    assert s[3] == SpecialChars[0];
    StrengthCounts(s);
  }

  /** Each requirement asks for a run or a character somewhere, so text added at the end keeps it. */
  lemma AppendKeepsRequirement(r: Requirement, s: string, t: string)
    requires Met(r, s)
    ensures Met(r, s + t)
  {
    match r
    case MinLength =>
      var i: nat, j: nat :| i <= j <= |s| && RunBetween(s, i, j);
      assert (s + t)[i..j] == s[i..j];
      assert RunBetween(s + t, i, j);
    case Uppercase =>
      var i :| 0 <= i < |s| && 'A' <= s[i] <= 'Z';
      assert (s + t)[i] == s[i];
    case Lowercase =>
      var i :| 0 <= i < |s| && 'a' <= s[i] <= 'z';
      assert (s + t)[i] == s[i];
    case Digit =>
      var i :| 0 <= i < |s| && '0' <= s[i] <= '9';
      assert (s + t)[i] == s[i];
    case Special =>
      var i :| 0 <= i < |s| && s[i] in SpecialChars;
      assert (s + t)[i] == s[i];
  }

  /** Typing more characters never lowers the strength. */
  lemma AppendNeverWeakens(s: string, t: string)
    ensures Strength(s) <= Strength(s + t)
  {
    StrengthCounts(s);
    StrengthCounts(s + t);
    forall r | Met(r, s) ensures Met(r, s + t) {
      AppendKeepsRequirement(r, s, t);
    }
  }

  /** `getStrengthColor`: the bar's class. */
  function BarColour(strength: int): string
  {
    if strength <= 1 then "bg-red-500"
    else if strength <= 2 then "bg-orange-500"
    else if strength <= 3 then "bg-yellow-500"
    else if strength <= 4 then "bg-blue-500"
    else "bg-green-500"
  }

  /** The nested conditional that colours the label. */
  function LabelColour(strength: int): string
  {
    if strength >= 5 then "text-green-600"
    else if strength >= 4 then "text-blue-600"
    else if strength >= 3 then "text-yellow-600"
    else if strength >= 2 then "text-orange-600"
    else "text-red-600"
  }

  /** The hue each strength is drawn in, as one table. */
  datatype Hue = Red | Orange | Yellow | Blue | Green

  function HueOf(strength: int): Hue
  {
    match strength
    case 2 => Orange
    case 3 => Yellow
    case 4 => Blue
    case _ => if strength <= 1 then Red else Green
  }

  function HueName(h: Hue): string
  {
    match h
    case Red => "red"
    case Orange => "orange"
    case Yellow => "yellow"
    case Blue => "blue"
    case Green => "green"
  }

  /** The bar and the label always show the same hue: the two chains, written in opposite
      directions, agree with the one table for every strength. */
  lemma ColoursAgree(strength: int)
    ensures BarColour(strength) == "bg-" + HueName(HueOf(strength)) + "-500"
    ensures LabelColour(strength) == "text-" + HueName(HueOf(strength)) + "-600"
  {
    if strength <= 1 {
      HueColours(Red, "red", "bg-red-500", "text-red-600");
    } else if strength == 2 {
      HueColours(Orange, "orange", "bg-orange-500", "text-orange-600");
    } else if strength == 3 {
      HueColours(Yellow, "yellow", "bg-yellow-500", "text-yellow-600");
    } else if strength == 4 {
      HueColours(Blue, "blue", "bg-blue-500", "text-blue-600");
    } else {
      HueColours(Green, "green", "bg-green-500", "text-green-600");
    }
  }

  /** The class names spelled out for one hue. */
  lemma HueColours(h: Hue, name: string, bar: string, text: string)
    requires HueName(h) == name && bar == "bg-" + name + "-500" && text == "text-" + name + "-600"
    ensures "bg-" + HueName(h) + "-500" == bar && "text-" + HueName(h) + "-600" == text
  {
  }

  /** The word that goes with each hue. */
  function HueWord(h: Hue): string
  {
    match h
    case Red => "Very Weak"
    case Orange => "Weak"
    case Yellow => "Fair"
    case Blue => "Good"
    case Green => "Strong"
  }

  /** `getStrengthText`'s chain of thresholds: the word changes at the same strengths as the
      bar and the label, following the one hue table. */
  function StrengthWord(strength: int): (w: string)
    ensures w != ""
    ensures w == HueWord(HueOf(strength))
  {
    if strength <= 1 then "Very Weak"
    else if strength <= 2 then "Weak"
    else if strength <= 3 then "Fair"
    else if strength <= 4 then "Good"
    else "Strong"
  }

  /** `getStrengthText`: nothing for an empty password, otherwise the word for its strength. */
  function StrengthText(password: string): (text: string)
    ensures text == "" <==> password == ""
    ensures password != "" ==> text in ["Very Weak", "Weak", "Fair", "Good", "Strong"]
  {
    if |password| == 0 then "" else StrengthWord(Strength(password))
  }

  /** One line of the requirements checklist. */
  datatype ChecklistItem = ChecklistItem(text: string, met: bool)

  /** What the component draws. The bar width `(strength / 5) * 100` is not modelled. */
  datatype View = View(barColour: string, labelColour: string, text: string, checklist: seq<ChecklistItem>)

  /** The component: nothing for an empty password (`return null`); otherwise the bar, the
      label and, when asked for, one checklist line per requirement. */
  function Render(password: string, showRequirements: bool): (v: Option<View>)
    ensures v.None? <==> password == ""
    ensures v.Some? ==>
              && v.value.barColour == BarColour(Strength(password))
              && v.value.labelColour == LabelColour(Strength(password))
              && v.value.text == StrengthWord(Strength(password))
              && |v.value.checklist| == (if showRequirements then 5 else 0)
              && forall k :: 0 <= k < |v.value.checklist| ==>
                   v.value.checklist[k] == ChecklistItem(RequirementText(Requirements[k]), Met(Requirements[k], password))
  {
    if |password| == 0 then None
    else
      var strength := Strength(password);
      var items := if showRequirements
                   then seq(5, k requires 0 <= k < 5 => ChecklistItem(RequirementText(Requirements[k]), Met(Requirements[k], password)))
                   else [];
      Some(View(BarColour(strength), LabelColour(strength), StrengthText(password), items))
  }
}
