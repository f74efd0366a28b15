// The fixed shift catalogue of the schedule screen (src/App.tsx:86-98) and
// the category switch the rotation uses: a morning code moves to the first
// night entry of the catalogue and a night code to the first morning entry.

module ShiftCatalog {

  import opened Wrappers
  import opened Text

  datatype Category = Morning | Night | OffCategory

  datatype ShiftDef = ShiftDef(name: string, code: string, time: string, color: string, category: Category)

  /** The eleven catalogue entries, in the source's order. */
  function Catalog(): seq<ShiftDef> {
    [ ShiftDef("IST Shift", "IST", "03:00PM-12:00AM", "#4CAF50", Morning),
      ShiftDef("US Shift", "US", "11:30AM-08:30PM", "#E91E63", Morning),
      ShiftDef("AU Shift", "AU", "03:30AM-11:30AM", "#2196F3", Night),
      ShiftDef("IST Shift Lead", "IST-L", "03:00PM-12:00AM", "#2E7D32", Morning),
      ShiftDef("AU Shift Lead", "AU-L", "03:30AM-11:30AM", "#1565C0", Night),
      ShiftDef("AU Patching", "AU-P", "03:30AM-11:30AM", "#FF5722", Night),
      ShiftDef("US Patching", "US-P", "11:30AM-08:30PM", "#FF6B35", Morning),
      ShiftDef("KT-AU Patching", "KT-AU", "03:30AM-11:30AM", "#795548", Night),
      ShiftDef("Leave", "L", "---", "#dc3545", OffCategory),
      ShiftDef("Week Off", "WO", "---", "#9C27B0", OffCategory),
      ShiftDef("Off", "OFF", "---", "#607D8B", OffCategory) ]
  }

  /** The three lookups the screen makes in the catalogue. */
  datatype Query = ByCode(code: string) | ByCodeIgnoreCase(code: string) | ByCategory(cat: Category)

  predicate Matches(q: Query, s: ShiftDef) {
    match q
    case ByCode(c) => s.code == c
    case ByCodeIgnoreCase(c) => ToUpper(s.code) == ToUpper(c)
    case ByCategory(cat) => s.category == cat
  }

  /** The first entry matching q, as Array.prototype.find. */
  function FindFirst(s: seq<ShiftDef>, q: Query): (r: Option<ShiftDef>)
    ensures r.Some? ==> r.value in s && Matches(q, r.value)
    ensures r.Some? ==> exists i :: 0 <= i < |s| && s[i] == r.value && forall j :: 0 <= j < i ==> !Matches(q, s[j])
    ensures r.None? ==> forall i :: 0 <= i < |s| ==> !Matches(q, s[i])
  {
    if |s| == 0 then None
    else if Matches(q, s[0]) then Some(s[0])
    else
      var r := FindFirst(s[1..], q);
      if r.Some? then
        var i :| 0 <= i < |s| - 1 && s[1..][i] == r.value && forall j :: 0 <= j < i ==> !Matches(q, s[1..][j]);
        assert s[i + 1] == r.value && forall j :: 0 <= j < i + 1 ==> !Matches(q, s[j]);
        r
      else r
  }

  /** shifts.find(s => s.code === code). */
  function Find(code: string): Option<ShiftDef> {
    FindFirst(Catalog(), ByCode(code))
  }

  /** shifts.find(s => s.code.toUpperCase() === code.toUpperCase()). */
  function FindIgnoreCase(code: string): Option<ShiftDef> {
    FindFirst(Catalog(), ByCodeIgnoreCase(code))
  }

  /** shifts.find(s => s.category === cat)?.code || fallback. */
  function FirstCodeOf(cat: Category, fallback: string): string {
    match FindFirst(Catalog(), ByCategory(cat))
    case Some(s) => if s.code != "" then s.code else fallback
    case None => fallback
  }

  /** The category switch as the source writes it out at each use: a morning
      code moves to the first night code of the catalogue, a night code to the
      first morning code, and anything else falls back to the given code. */
  function SwitchCategory(code: string, fallback: string): string {
    match Find(code)
    case Some(s) =>
      if s.category == Morning then FirstCodeOf(Night, fallback)
      else if s.category == Night then FirstCodeOf(Morning, fallback)
      else fallback
    case None => fallback
  }

  function MorningCodes(): set<string> { {"IST", "US", "IST-L", "US-P"} }

  function NightCodes(): set<string> { {"AU", "AU-L", "AU-P", "KT-AU"} }

  /** A code the schedule counts as a working shift: shift && shift.category !== 'off'. */
  predicate IsWorkingCode(code: string) {
    code in MorningCodes() || code in NightCodes()
  }

  /** The literal exclusion list ['L', 'WO', 'OFF'] of the pattern analysis. */
  predicate IsOffCode(code: string) {
    code == "L" || code == "WO" || code == "OFF"
  }

  /** The in-rotation switch, where the code itself is the fallback, in closed form. */
  function Flip(code: string): (r: string)
    ensures IsWorkingCode(code) ==> IsWorkingCode(r) && (r == "AU" || r == "IST")
    ensures code in MorningCodes() ==> r in NightCodes()
    ensures code in NightCodes() ==> r in MorningCodes()
    ensures !IsWorkingCode(code) ==> r == code
  {
    if code in MorningCodes() then "AU" else if code in NightCodes() then "IST" else code
  }

  /** shifts.find(s => s.category === 'night') is AU, the third entry. */
  lemma FirstNightIsAU()
    ensures FindFirst(Catalog(), ByCategory(Night)) == Some(Catalog()[2])
  {
    var p := ByCategory(Night);
    var c := Catalog();
    assert FindFirst(c[2..], p) == Some(c[2]);
    assert FindFirst(c[1..], p) == FindFirst(c[1..][1..], p);
    assert c[1..][1..] == c[2..];
  }

  /** shifts.find(s => s.category === 'morning') is IST, the first entry. */
  lemma FirstMorningIsIST()
    ensures FindFirst(Catalog(), ByCategory(Morning)) == Some(Catalog()[0])
  {
  }

  /** The category table: which codes the catalogue files under which category. */
  lemma {:induction false} CatalogCategories(s: ShiftDef)
    requires s in Catalog()
    ensures s.category == Morning <==> s.code in MorningCodes()
    ensures s.category == Night <==> s.code in NightCodes()
    ensures s.category == OffCategory <==> IsOffCode(s.code)
  {
    var c := Catalog();
    var i :| 0 <= i < |c| && c[i] == s;
    assert (s.category == Morning && s.code in MorningCodes())
        || (s.category == Night && s.code in NightCodes())
        || (s.category == OffCategory && IsOffCode(s.code)) by {
      if i < 6 {
        assert i in {0, 1, 2, 3, 4, 5};
      } else {
        assert i in {6, 7, 8, 9, 10};
      }
    }
    CodeSetsDisjoint(s.code);
  }

  /** No code is filed under two categories. */
  lemma CodeSetsDisjoint(code: string)
    ensures code in MorningCodes() ==> code !in NightCodes() && !IsOffCode(code)
    ensures code in NightCodes() ==> !IsOffCode(code)
  {
  }

  /** Every code of the category sets is in the catalogue, and nothing else is. */
  lemma {:induction false} CategoryCodesInCatalog(code: string)
    ensures Find(code).Some? <==> IsWorkingCode(code) || IsOffCode(code)
    ensures Find(code).Some? ==> Find(code).value.code == code
  {
    var c := Catalog();
    if IsWorkingCode(code) || IsOffCode(code) {
      var i :| 0 <= i < |c| && c[i].code == code by {
        if code == "IST" { assert c[0].code == code; }
        else if code == "US" { assert c[1].code == code; }
        else if code == "AU" { assert c[2].code == code; }
        else if code == "IST-L" { assert c[3].code == code; }
        else if code == "AU-L" { assert c[4].code == code; }
        else if code == "AU-P" { assert c[5].code == code; }
        else if code == "US-P" { assert c[6].code == code; }
        else if code == "KT-AU" { assert c[7].code == code; }
        else if code == "L" { assert c[8].code == code; }
        else if code == "WO" { assert c[9].code == code; }
        else { assert c[10].code == code; }
      }
      assert Matches(ByCode(code), c[i]);
    } else if Find(code).Some? {
      CatalogCategories(Find(code).value);
    }
  }

  lemma SwitchFromMorning(code: string, fallback: string)
    requires Find(code).Some? && Find(code).value.category == Morning
    ensures SwitchCategory(code, fallback) == "AU"
  {
    FirstNightIsAU();
    assert FirstCodeOf(Night, fallback) == "AU";
  }

  lemma SwitchFromNight(code: string, fallback: string)
    requires Find(code).Some? && Find(code).value.category == Night
    ensures SwitchCategory(code, fallback) == "IST"
  {
    FirstMorningIsIST();
    assert FirstCodeOf(Morning, fallback) == "IST";
  }

  /** The written-out switch always lands on AU (from morning) or IST (from
      night) and otherwise returns its fallback; so where the fallback is the
      code itself it is Flip. */
  lemma SwitchCategoryClosedForm(code: string, fallback: string)
    ensures SwitchCategory(code, fallback) ==
      if code in MorningCodes() then "AU" else if code in NightCodes() then "IST" else fallback
    ensures SwitchCategory(code, code) == Flip(code)
  {
    CategoryCodesInCatalog(code);
    if Find(code).Some? {
      var s := Find(code).value;
      CatalogCategories(s);
      if s.category == Morning {
        SwitchFromMorning(code, fallback);
        SwitchFromMorning(code, code);
      } else if s.category == Night {
        SwitchFromNight(code, fallback);
        SwitchFromNight(code, code);
      }
    }
  }

  /** Looking up a working code finds an entry of its category; AU is night and IST morning. */
  lemma WorkingCodeCategory(code: string)
    requires IsWorkingCode(code)
    ensures Find(code).Some? && Find(code).value.code == code
    ensures Find(code).value.category == (if code in MorningCodes() then Morning else Night)
  {
    CategoryCodesInCatalog(code);
    CatalogCategories(Find(code).value);
  }

  /** The source's working test `shift && shift.category !== 'off'` on a looked-up code
      holds exactly for the morning and night codes. */
  lemma FoundWorking(code: string)
    ensures (Find(code).Some? && Find(code).value.category != OffCategory) <==> IsWorkingCode(code)
  {
    CategoryCodesInCatalog(code);
    if Find(code).Some? {
      CatalogCategories(Find(code).value);
    }
  }

  /** The catalogue position of a known code. */
  function CodeIndex(code: string): (i: nat)
    requires IsWorkingCode(code) || IsOffCode(code)
    ensures i < |Catalog()| && Catalog()[i].code == code
  {
    if code == "IST" then 0 else if code == "US" then 1 else if code == "AU" then 2
    else if code == "IST-L" then 3 else if code == "AU-L" then 4 else if code == "AU-P" then 5
    else if code == "US-P" then 6 else if code == "KT-AU" then 7 else if code == "L" then 8
    else if code == "WO" then 9 else 10
  }

  /** The catalogue entry of a known code. */
  function ShiftOf(code: string): (s: ShiftDef)
    requires IsWorkingCode(code) || IsOffCode(code)
    ensures s in Catalog() && s.code == code
  {
    Catalog()[CodeIndex(code)]
  }

  /** Looking a known code up finds its catalogue entry. */
  lemma FindShiftOf(code: string)
    requires IsWorkingCode(code) || IsOffCode(code)
    ensures Find(code) == Some(ShiftOf(code))
  {
    CategoryCodesInCatalog(code);
    CatalogCodesUnique();
    var c := Catalog();
    var i :| 0 <= i < |c| && c[i] == Find(code).value && forall j :: 0 <= j < i ==> !Matches(ByCode(code), c[j]);
    assert c[i].code == c[CodeIndex(code)].code;
  }

  /** Every catalogue code is unique. */
  lemma CatalogCodesUnique()
    ensures forall i, j :: 0 <= i < j < |Catalog()| ==> Catalog()[i].code != Catalog()[j].code
  {
  }

  /** The switch the rotation loops perform (src/App.tsx:351-356, 704-710): look the code up,
      then take the code of the first entry of the other category, keeping the code itself
      when it is not a morning or night code. */
  method SwitchShift(code: string) returns (next: string)
    ensures next == Flip(code)
  {
    SwitchCategoryClosedForm(code, code);
    next := SwitchCategory(code, code);
  }

  /** `shifts.find(s => s.code === code)` followed by the test `shift && shift.category !== 'off'`:
      the entry is returned exactly for a working code, and it is that code's catalogue entry. */
  method FindWorkingShift(code: string) returns (shift: Option<ShiftDef>)
    ensures shift.Some? <==> IsWorkingCode(code)
    ensures shift.Some? ==> shift.value == ShiftOf(code) && shift.value.category != OffCategory
  {
    var found := FindFirst(Catalog(), ByCode(code));
    FoundWorking(code);
    if found.Some? && found.value.category != OffCategory {
      FindShiftOf(code);
      shift := found;
    } else {
      shift := None;
    }
  }
}
