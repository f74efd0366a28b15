// The password strength meter of the login form (src/components/Login.tsx,
// checkPasswordStrength): four character-class criteria, a score in steps of
// 25, a label and colour, and feedback naming what is missing.

module PasswordStrength {

  import opened Text
  import opened Seqs

  /** The meter: the score, its label (`level`), the colour and the feedback text. */
  datatype Strength = Strength(value: int, level: string, color: string, feedback: string)

  /** The regular expressions /[a-z]/, /[A-Z]/, /\d/ and /[^a-zA-Z\d]/. */
  predicate HasLower(p: string) { exists i :: 0 <= i < |p| && IsLower(p[i]) }
  predicate HasUpper(p: string) { exists i :: 0 <= i < |p| && IsUpper(p[i]) }
  predicate HasDigit(p: string) { exists i :: 0 <= i < |p| && IsDigit(p[i]) }
  predicate HasSpecial(p: string) { exists i :: 0 <= i < |p| && !IsLower(p[i]) && !IsUpper(p[i]) && !IsDigit(p[i]) }

  /** Which of the four criteria hold, in the order length (in UTF-16 code units, as `.length`
      counts), mixed case, numbers, special. */
  function Met(p: string): (r: seq<bool>)
    ensures |r| == 4
  {
    [Utf16Length(p) >= 8, HasLower(p) && HasUpper(p), HasDigit(p), HasSpecial(p)]
  }

  /** The feedback phrase of each criterion. */
  function Advice(): (r: seq<string>)
    ensures |r| == 4
  {
    ["at least 8 characters", "both uppercase and lowercase letters", "numbers", "special characters"]
  }

  /** The phrases of the unmet criteria, in the fixed order. */
  function Missing(p: string): seq<string> {
    MissingFrom(Met(p), 0)
  }

  /** The phrase of criterion k if it is unmet. */
  function Piece(met: seq<bool>, k: nat): seq<string>
    requires |met| == 4 && k < 4
  {
    if met[k] then [] else [Advice()[k]]
  }

  /** The phrases of the unmet criteria from the k-th on. */
  function MissingFrom(met: seq<bool>, k: nat): seq<string>
    requires |met| == 4 && k <= 4
    decreases 4 - k
  {
    if k == 4 then [] else Piece(met, k) + MissingFrom(met, k + 1)
  }

  /** The number of criteria that hold. */
  function Satisfied(p: string): nat {
    Count(Met(p), (b: bool) => b)
  }

  /** The label and colour thresholds. */
  function LabelOf(value: int): string {
    if value <= 25 then "Weak" else if value <= 50 then "Fair" else if value <= 75 then "Good" else "Strong"
  }

  function ColorOf(value: int): string {
    if value <= 25 then "#ff4d4d" else if value <= 50 then "#ffab00" else if value <= 75 then "#4db8ff" else "#00cc66"
  }

  /** What the meter shows: the grey "None" for an empty password; otherwise 25 per satisfied
      criterion, its label and colour, and the feedback. */
  function Expected(p: string): Strength {
    if |p| == 0 then Strength(0, "None", "#d3d3d3", "")
    else
      var value := 25 * Satisfied(p);
      Strength(value, LabelOf(value), ColorOf(value),
               if value < 100 then "Add " + Join(Missing(p), ", ") + " to improve strength."
               else "Excellent password!")
  }

  /** The missing phrases written out: one optional phrase per criterion, in order. */
  lemma MissingUnfold(p: string)
    ensures var met := Met(p);
      Missing(p) == Piece(met, 0) + Piece(met, 1) + Piece(met, 2) + Piece(met, 3)
  {
    var met := Met(p);
    assert MissingFrom(met, 3) == Piece(met, 3);
    assert MissingFrom(met, 1) == Piece(met, 1) + (Piece(met, 2) + Piece(met, 3));
  }

  /** The satisfied count is the sum of the four criteria. */
  lemma SatisfiedSum(p: string)
    ensures Satisfied(p) == (if Utf16Length(p) >= 8 then 1 else 0) + (if HasLower(p) && HasUpper(p) then 1 else 0)
      + (if HasDigit(p) then 1 else 0) + (if HasSpecial(p) then 1 else 0)
  {
    var met := Met(p);
    var isMet := (b: bool) => b;
    assert met[1..][1..][1..][1..] == [];
    assert Count(met, isMet) == (if met[0] then 1 else 0) + Count(met[1..], isMet);
    assert Count(met[1..], isMet) == (if met[1] then 1 else 0) + Count(met[1..][1..], isMet);
    assert Count(met[1..][1..], isMet) == (if met[2] then 1 else 0) + Count(met[1..][1..][1..], isMet);
  }

  /** The missing phrases from k on: exactly those of the unmet criteria, in order. */
  lemma {:induction false} MissingFromFacts(met: seq<bool>, k: nat)
    requires |met| == 4 && k <= 4
    ensures forall j :: 0 <= j < 4 ==> (Advice()[j] in MissingFrom(met, k) <==> k <= j && !met[j])
    ensures IsSubsequence(MissingFrom(met, k), Advice()[k..])
    decreases 4 - k
  {
    if k < 4 {
      MissingFromFacts(met, k + 1);
      var rest := MissingFrom(met, k + 1);
      assert Advice()[k..][1..] == Advice()[k + 1..];
      if !met[k] {
        assert MissingFrom(met, k) == [Advice()[k]] + rest;
        assert ([Advice()[k]] + rest)[1..] == rest;
      } else {
        assert MissingFrom(met, k) == rest;
        SubsequenceSkip(rest, Advice()[k..]);
      }
    }
  }

  /** One phrase per unmet criterion. */
  lemma MissingLength(met: seq<bool>)
    requires |met| == 4
    ensures |MissingFrom(met, 0)| == (if met[0] then 0 else 1) + (if met[1] then 0 else 1)
      + (if met[2] then 0 else 1) + (if met[3] then 0 else 1)
  {
    assert |MissingFrom(met, 3)| == (if met[3] then 0 else 1);
    assert |MissingFrom(met, 2)| == (if met[2] then 0 else 1) + |MissingFrom(met, 3)|;
    assert |MissingFrom(met, 1)| == (if met[1] then 0 else 1) + |MissingFrom(met, 2)|;
  }

  /** The feedback names exactly the unmet criteria, in the fixed order, and there are as many
      as the score is short of 100 in steps of 25. */
  lemma MissingFacts(p: string)
    ensures forall j :: 0 <= j < 4 ==> (Advice()[j] in Missing(p) <==> !Met(p)[j])
    ensures IsSubsequence(Missing(p), Advice())
    ensures |Missing(p)| + Satisfied(p) == 4
  {
    var met := Met(p);
    MissingFromFacts(met, 0);
    assert Advice()[0..] == Advice();
    SatisfiedSum(p);
    MissingLength(met);
  }

  /** A criterion that fails is named in the feedback. */
  lemma MissingNonEmpty(p: string)
    requires Satisfied(p) < 4
    ensures |Missing(p)| > 0
  {
    MissingFacts(p);
  }

  /** For a non-empty password the score is a multiple of 25 up to 100, and it is 100, "Strong"
      and "Excellent password!" exactly when all four criteria hold; otherwise the feedback lists
      at least one missing criterion. */
  lemma ScoreFacts(p: string)
    requires |p| > 0
    ensures var r := Expected(p);
      r.value in {0, 25, 50, 75, 100}
      && (r.value == 100 <==> Utf16Length(p) >= 8 && HasLower(p) && HasUpper(p) && HasDigit(p) && HasSpecial(p))
      && (r.level == "Strong" <==> r.value == 100)
      && (r.feedback == "Excellent password!" <==> r.value == 100)
      && (r.value < 100 ==> |Missing(p)| > 0)
  {
    SatisfiedSum(p);
    MissingFacts(p);
    var r := Expected(p);
    if r.value < 100 {
      var body := "Add " + Join(Missing(p), ", ") + " to improve strength.";
      assert body[0] == 'A';
      assert r.feedback != "Excellent password!" by {
        assert "Excellent password!"[0] == 'E';
      }
    }
  }

  /** checkPasswordStrength: the criteria, the running score, the label branches and the list of
      missing items. */
  method CheckPasswordStrength(password: string) returns (r: Strength)
    ensures r == Expected(password)
  {
    var strength := 0;
    var level := "None";
    var color := "#d3d3d3";
    var feedback := "";
    var missingLength := Utf16Length(password) < 8;
    var missingMixedCase := !(HasLower(password) && HasUpper(password));
    var missingNumbers := !HasDigit(password);
    var missingSpecial := !HasSpecial(password);
    if |password| == 0 {
      return Strength(strength, level, color, feedback);
    }
    if !missingLength { strength := strength + 25; }
    if !missingMixedCase { strength := strength + 25; }
    if !missingNumbers { strength := strength + 25; }
    if !missingSpecial { strength := strength + 25; }
    SatisfiedSum(password);
    assert strength == 25 * Satisfied(password);
    if strength <= 25 {
      level, color := "Weak", "#ff4d4d";
    } else if strength <= 50 {
      level, color := "Fair", "#ffab00";
    } else if strength <= 75 {
      level, color := "Good", "#4db8ff";
    } else {
      level, color := "Strong", "#00cc66";
    }
    assert level == LabelOf(strength) && color == ColorOf(strength);
    if strength < 100 {
      ghost var met := Met(password);
      var missingItems: seq<string> := [];
      if missingLength { missingItems := missingItems + ["at least 8 characters"]; }
      assert missingItems == Piece(met, 0);
      if missingMixedCase { missingItems := missingItems + ["both uppercase and lowercase letters"]; }
      assert missingItems == Piece(met, 0) + Piece(met, 1);
      if missingNumbers { missingItems := missingItems + ["numbers"]; }
      assert missingItems == Piece(met, 0) + Piece(met, 1) + Piece(met, 2);
      if missingSpecial { missingItems := missingItems + ["special characters"]; }
      assert missingItems == Piece(met, 0) + Piece(met, 1) + Piece(met, 2) + Piece(met, 3);
      MissingUnfold(password);
      MissingNonEmpty(password);
      if |missingItems| > 0 {
        feedback := "Add " + Join(missingItems, ", ") + " to improve strength.";
      }
    } else {
      feedback := "Excellent password!";
    }
    return Strength(strength, level, color, feedback);
  }
}
