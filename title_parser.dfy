/**
 * The title parser both scrapers share: the regular expressions that find the
 * year and the rest of a listing title, and the first-match search of the
 * make dictionary's keys that splits the rest into make and model.
 */
module TitleParser {
  import opened Wrappers
  import opened Records
  import opened Text

  /** Year, make and model of one listing. */
  datatype Title = Title(year: string, make: string, model: string)

  /** The triple written when a title does not resolve. */
  const Unresolved: Title := Title(NA, NA, NA)

  /** `\d{4}` matches at position k. */
  predicate YearAt(s: string, k: nat) {
    k + 4 <= |s| && forall j :: k <= j < k + 4 ==> IsDigit(s[j])
  }

  /** No line break in s[i..k]; the regex `.` matches every character but '\n'. */
  predicate NoNewline(s: string, i: nat, k: nat) {
    forall j :: i <= j < k && j < |s| ==> s[j] != '\n'
  }

  /** s[i..k] is a run of whitespace. */
  predicate AllSpace(s: string, i: nat, k: nat) {
    forall j :: i <= j < k && j < |s| ==> IsSpace(s[j])
  }

  /**
   * Where `^.*?(\d{4})` finds its year when the lazy `.*?` has already
   * consumed s[..i]: the first 4-digit run from i on that no line break
   * precedes.
   */
  function FindYear(s: string, i: nat): (r: Option<nat>)
    requires i <= |s|
    decreases |s| - i
    ensures r.Some? ==> i <= r.value && YearAt(s, r.value) && NoNewline(s, i, r.value)
    ensures r.Some? ==> forall k :: i <= k < r.value ==> !YearAt(s, k)
    ensures r.None? ==> forall k :: i <= k && YearAt(s, k) ==> !NoNewline(s, i, k)
  {
    if i + 4 > |s| then None
    else if YearAt(s, i) then Some(i)
    else if s[i] == '\n' then None
    else FindYear(s, i + 1)
  }

  /**
   * `re.sub(r'^.*?(\d{4})', r'\1', s)`: everything before the first 4-digit
   * run of the first line is dropped; without one, `s` is left as it is.
   */
  function DropBeforeYear(s: string): (r: string)
    ensures FindYear(s, 0).None? ==> r == s
    ensures FindYear(s, 0).Some? ==> |r| <= |s| && r == s[|s| - |r|..] && YearAt(r, 0)
    ensures FindYear(s, 0).Some? ==> forall k :: 0 <= k < |s| - |r| ==> !YearAt(s, k) && s[k] != '\n'
  {
    match FindYear(s, 0)
    case None => s
    case Some(i) => s[i..]
  }

  /** The length of the whitespace run starting at i. */
  function SpaceRun(s: string, i: nat): (m: nat)
    requires i <= |s|
    decreases |s| - i
    ensures i + m <= |s| && AllSpace(s, i, i + m)
    ensures i + m == |s| || !IsSpace(s[i + m])
  {
    if i < |s| && IsSpace(s[i]) then 1 + SpaceRun(s, i + 1) else 0
  }

  /** What the greedy `.+` takes from the start of t: everything up to the first line break. */
  function Line(t: string): (r: string)
    ensures IsPrefix(r, t)
    ensures forall j :: 0 <= j < |r| ==> r[j] != '\n'
    ensures |r| == |t| || t[|r|] == '\n'
  {
    if t == [] || t[0] == '\n' then [] else [t[0]] + Line(t[1..])
  }

  /**
   * The backtracking of `\s+` before `(.+)`: the longest k, from `k` down to 1,
   * after which a character other than '\n' follows the first 4 + k characters.
   */
  function SpacesBeforeRest(s: string, k: nat): (r: Option<nat>)
    requires 4 + k <= |s|
    ensures r.Some? ==> 1 <= r.value <= k && 4 + r.value < |s| && s[4 + r.value] != '\n'
    ensures r.Some? ==> forall p :: 4 + r.value < p <= 4 + k && p < |s| ==> s[p] == '\n'
    ensures r.None? ==> forall p :: 5 <= p <= 4 + k && p < |s| ==> s[p] == '\n'
  {
    if k == 0 then None
    else if 4 + k < |s| && s[4 + k] != '\n' then Some(k)
    else SpacesBeforeRest(s, k - 1)
  }

  /**
   * With m the whitespace run after the year, and no non-'\n' after any longer
   * run than k up to m, a line break follows every longer whitespace run.
   */
  lemma GreedyRun(s: string, m: nat, k: nat)
    requires 4 + m <= |s| && AllSpace(s, 4, 4 + m) && (4 + m == |s| || !IsSpace(s[4 + m]))
    requires k <= m
    requires forall p :: 4 + k < p <= 4 + m && p < |s| ==> s[p] == '\n'
    ensures forall q :: 4 + k < q < |s| && AllSpace(s, 4, q) ==> s[q] == '\n'
  {
    forall q | 4 + k < q < |s| && AllSpace(s, 4, q) ensures s[q] == '\n' {
      assert q <= 4 + m;
    }
  }

  /** A successful `re.match(r"(\d{4})\s+(.+)", s)`: group 1, where group 2 starts, and group 2. */
  datatype YearMatch = YearMatch(year: string, start: nat, rest: string)

  /**
   * `re.match(r"(\d{4})\s+(.+)", s)`, anchored at the start of `s`. A match
   * takes the 4 leading digits, the longest whitespace run after which a
   * character other than '\n' follows, and the rest of that line.
   */
  function YearSplit(s: string): (r: Option<YearMatch>)
    ensures r.Some? ==> YearAt(s, 0) && r.value.year == s[..4]
    ensures r.Some? ==> 5 <= r.value.start < |s| && AllSpace(s, 4, r.value.start)
    ensures r.Some? ==> r.value.rest == Line(s[r.value.start..]) && |r.value.rest| >= 1
    ensures r.Some? ==> forall q :: r.value.start < q < |s| && AllSpace(s, 4, q) ==> s[q] == '\n'
    ensures r.None? ==> !YearAt(s, 0) || forall q :: 4 < q < |s| && AllSpace(s, 4, q) ==> s[q] == '\n'
  {
    if !YearAt(s, 0) then None
    else
      var m := SpaceRun(s, 4);
      match SpacesBeforeRest(s, m)
      case None =>
        GreedyRun(s, m, 0);
        None
      case Some(k) =>
        GreedyRun(s, m, k);
        Some(YearMatch(s[..4], 4 + k, Line(s[4 + k..])))
  }

  /** The index of the first key that starts `lowered`; |keys| when none does. */
  function FirstMatch(keys: seq<string>, lowered: string): (r: nat)
    ensures r <= |keys|
    ensures r < |keys| ==> IsPrefix(keys[r], lowered)
    ensures forall j :: 0 <= j < r ==> !IsPrefix(keys[j], lowered)
  {
    if keys == [] then 0
    else if IsPrefix(keys[0], lowered) then 0
    else 1 + FirstMatch(keys[1..], lowered)
  }

  /**
   * The make-search loop: the first key, in dictionary order, that starts the
   * lower-cased text, and the original-case remainder after it, stripped;
   * two empty strings when no key does.
   */
  method MatchMake(keys: seq<string>, makeAndModel: string) returns (make: string, model: string)
    ensures var i := FirstMatch(keys, Lower(makeAndModel));
      if i < |keys| then make == keys[i] && |make| <= |makeAndModel| && model == Strip(makeAndModel[|make|..])
      else make == "" && model == ""
  {
    var lowered := Lower(makeAndModel);
    make, model := "", "";
    for i := 0 to |keys|
      invariant forall j :: 0 <= j < i ==> !IsPrefix(keys[j], lowered)
    {
      if IsPrefix(keys[i], lowered) {
        make := keys[i];
        model := Strip(makeAndModel[|keys[i]|..]);
        return;
      }
    }
  }

  /** A lower-cased string has no upper-case letter, so no prefix of it is "N/A". */
  lemma LoweredIsNotNA(lowered: string, key: string)
    requires forall j :: 0 <= j < |lowered| ==> !IsUpper(lowered[j])
    requires IsPrefix(key, lowered)
    ensures key != NA
  {
    if |key| > 0 {
      assert key[0] == lowered[0];
      assert NA[0] == 'N';
    }
  }

  /**
   * The year, make and model of a title the regex and the make search
   * resolve, and the all-"N/A" triple otherwise: no match, no key that starts
   * the lower-cased rest, or the empty key (`if not make`).
   */
  function TitleOf(keys: seq<string>, s: string): (t: Title)
    ensures YearSplit(s).None? ==> t == Unresolved
    ensures t.make == NA <==> t == Unresolved
    ensures t != Unresolved ==> YearAt(s, 0) && t.year == s[..4] && t.make in keys && t.make != ""
    ensures YearSplit(s).Some? ==>
      var makeAndModel := Strip(YearSplit(s).value.rest);
      var lowered := Lower(makeAndModel);
      && (t != Unresolved ==> IsPrefix(t.make, lowered) && t.model == Strip(makeAndModel[|t.make|..]))
      && (t != Unresolved ==>
            exists k :: 0 <= k < |keys| && keys[k] == t.make && forall j :: 0 <= j < k ==> !IsPrefix(keys[j], lowered))
      && (t == Unresolved ==>
            || (forall j :: 0 <= j < |keys| ==> !IsPrefix(keys[j], lowered))
            || exists k :: 0 <= k < |keys| && keys[k] == "" && forall j :: 0 <= j < k ==> !IsPrefix(keys[j], lowered))
  {
    match YearSplit(s)
    case None => Unresolved
    case Some(m) =>
      var makeAndModel := Strip(m.rest);
      var lowered := Lower(makeAndModel);
      var i := FirstMatch(keys, lowered);
      if i == |keys| || keys[i] == "" then Unresolved
      else
        LoweredIsNotNA(lowered, keys[i]);
        Title(m.year, keys[i], Strip(makeAndModel[|keys[i]|..]))
  }

  /**
   * The title-parsing statements of the item loop on an already stripped
   * title: the regex split, then the make search, then `if not make`.
   */
  method ParseTitle(keys: seq<string>, s: string) returns (t: Title)
    ensures t == TitleOf(keys, s)
  {
    var m := YearSplit(s);
    if m.None? {
      return Unresolved;
    }
    var makeAndModel := Strip(m.value.rest);
    var make, model := MatchMake(keys, makeAndModel);
    if make == "" {
      t := Unresolved;
    } else {
      t := Title(m.value.year, make, model);
    }
  }

  /** The lazy search passes over characters that are neither digits nor line breaks. */
  lemma {:induction false} FindYearSkips(s: string, p: nat, i: nat)
    requires i <= p <= |s|
    requires forall k :: i <= k < p ==> !IsDigit(s[k]) && s[k] != '\n'
    ensures FindYear(s, i) == FindYear(s, p)
    decreases p - i
  {
    if i < p {
      assert !YearAt(s, i) by {
        assert !IsDigit(s[i]);
      }
      FindYearSkips(s, p, i + 1);
    }
  }

  /**
   * Text before the year that holds no digit and no line break is
   * dropped, on Bring a Trailer's "No Reserve: 1969 ..." style titles.
   */
  lemma DropBeforeYearPrefix(prefix: string, rest: string)
    requires forall k :: 0 <= k < |prefix| ==> !IsDigit(prefix[k]) && prefix[k] != '\n'
    requires YearAt(rest, 0)
    ensures DropBeforeYear(prefix + rest) == rest
  {
    var s := prefix + rest;
    FindYearSkips(s, |prefix|, 0);
    assert YearAt(s, |prefix|) by {
      assert forall j :: 0 <= j < 4 ==> s[|prefix| + j] == rest[j];
    }
    assert s[|prefix|..] == rest;
  }

  /** The usual shape of a title: four digits, whitespace, then a line that starts with a non-space. */
  lemma YearSplitTypical(year: string, gap: string, rest: string)
    requires |year| == 4 && YearAt(year, 0)
    requires |gap| >= 1 && AllSpace(gap, 0, |gap|)
    requires |rest| >= 1 && !IsSpace(rest[0]) && NoNewline(rest, 0, |rest|)
    ensures YearSplit(year + gap + rest) == Some(YearMatch(year, 4 + |gap|, rest))
  {
    var s := year + gap + rest;
    assert s[..4] == year;
    assert forall j :: 4 <= j < 4 + |gap| ==> s[j] == gap[j - 4];
    assert s[4 + |gap|] == rest[0];
    assert s[4 + |gap|..] == rest;
    assert Line(rest) == rest;
  }

  /** On a title of the usual shape, the result is decided by the make search on the rest alone. */
  lemma TitleOfTypical(keys: seq<string>, year: string, gap: string, rest: string)
    requires |year| == 4 && YearAt(year, 0)
    requires |gap| >= 1 && AllSpace(gap, 0, |gap|)
    requires |rest| >= 1 && !IsSpace(rest[0]) && !IsSpace(rest[|rest| - 1]) && NoNewline(rest, 0, |rest|)
    ensures var i := FirstMatch(keys, Lower(rest));
      TitleOf(keys, year + gap + rest) ==
        if i < |keys| && keys[i] != "" then Title(year, keys[i], Strip(rest[|keys[i]|..])) else Unresolved
  {
    YearSplitTypical(year, gap, rest);
    StripTrimmed(rest);
  }

  /** The rest of the example title is one line with no whitespace at either end. */
  lemma AstonMartinShape()
    ensures var mm := "Aston Martin DB5"; NoNewline(mm, 0, |mm|) && !IsSpace(mm[0]) && !IsSpace(mm[|mm| - 1])
  {
  }

  /** The example title splits as year, one space and the rest. */
  lemma AstonMartinTitle()
    ensures YearAt("1964", 0) && AllSpace(" ", 0, 1)
    ensures "1964 Aston Martin DB5" == "1964" + " " + "Aston Martin DB5"
  {
  }

  /** What the make search sees in the rest of the example title. */
  lemma AstonMartinRest()
    ensures var mm := "Aston Martin DB5";
      && IsPrefix("aston", Lower(mm)) && IsPrefix("aston martin", Lower(mm))
      && Strip(mm[5..]) == "Martin DB5" && Strip(mm[12..]) == "DB5"
  {
    var mm := "Aston Martin DB5";
    AstonMartinLowered();
    assert Lower(mm)[..5] == Lower(mm)[..12][..5];
    AstonMartinModels();
  }

  lemma AstonMartinLowered()
    ensures Lower("Aston Martin DB5")[..12] == "aston martin"
  {
    var mm := "Aston Martin DB5";
    var l := Lower(mm);
    assert l[0] == 'a' && l[6] == 'm';
    assert forall i :: 1 <= i < 12 && i != 6 ==> !IsUpper(mm[i]);
    assert forall i :: 0 <= i < 12 ==> l[..12][i] == "aston martin"[i];
  }

  lemma AstonMartinModels()
    ensures Strip("Aston Martin DB5"[5..]) == "Martin DB5" && Strip("Aston Martin DB5"[12..]) == "DB5"
  {
    var mm := "Aston Martin DB5";
    assert mm[5..] == " Martin DB5" && mm[12..] == " DB5";
    StripLeadingBlank("Martin DB5");
    StripLeadingBlank("DB5");
  }

  /**
   * The search takes the FIRST key in dictionary order that starts the text,
   * not the longest: with "aston" listed before "aston martin", the model
   * keeps "Martin".
   */
  lemma FirstKeyNotLongest()
    ensures TitleOf(["aston", "aston martin"], "1964 Aston Martin DB5") == Title("1964", "aston", "Martin DB5")
  {
    var keys, mm := ["aston", "aston martin"], "Aston Martin DB5";
    AstonMartinRest();
    assert TitleOf(keys, "1964 Aston Martin DB5") == Title("1964", keys[0], Strip(mm[5..])) by {
      AstonMartinShape();
      AstonMartinTitle();
      TitleOfTypical(keys, "1964", " ", mm);
    }
  }

  /** Listed the other way round, the longer key is tried first and wins. */
  lemma LongerKeyFirst()
    ensures TitleOf(["aston martin", "aston"], "1964 Aston Martin DB5") == Title("1964", "aston martin", "DB5")
  {
    var keys, mm := ["aston martin", "aston"], "Aston Martin DB5";
    AstonMartinRest();
    assert TitleOf(keys, "1964 Aston Martin DB5") == Title("1964", keys[0], Strip(mm[12..])) by {
      AstonMartinShape();
      AstonMartinTitle();
      TitleOfTypical(keys, "1964", " ", mm);
    }
  }
}
