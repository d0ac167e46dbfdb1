/** The readable-status chain inside `format_schedule_for_group`. */
module Status {
  import opened Text

  /** Maps a raw per-hour code to its label: four exact codes, then any code containing
      "maybe", then the code itself. */
  function Normalize(code: string): (name: string)
  {
    if code == "yes" then "light_on"
    else if code == "no" then "light_off"
    else if code == "first" then "off_first_30min"
    else if code == "second" then "off_second_30min"
    else if Contains(code, "maybe") then "possible_outage"
    else code
  }

  /** The five labels the normaliser introduces. */
  const Labels: set<string> := {"light_on", "light_off", "off_first_30min", "off_second_30min", "possible_outage"}

  /** The exact-match table, the "maybe" rule and the pass-through. */
  lemma NormalizeTable(code: string)
    ensures Normalize("yes") == "light_on" && Normalize("no") == "light_off"
    ensures Normalize("first") == "off_first_30min" && Normalize("second") == "off_second_30min"
    ensures code !in {"yes", "no", "first", "second"} && Contains(code, "maybe") ==> Normalize(code) == "possible_outage"
    ensures code !in {"yes", "no", "first", "second"} && !Contains(code, "maybe") ==> Normalize(code) == code
  {
  }

  /** Every result is one of the labels or the unchanged code. */
  lemma NormalizeRange(code: string)
    ensures Normalize(code) in Labels || Normalize(code) == code
    ensures Normalize(code) != code ==> code in {"yes", "no", "first", "second"} || Contains(code, "maybe")
  {
  }

  /** No label contains "maybe": none of them has a 'y'. */
  lemma LabelsLackMaybe(name: string)
    requires name in Labels
    ensures !Contains(name, "maybe")
  {
    assert "maybe"[2] == 'y';
    assert 'y' !in "light_on" && 'y' !in "light_off" && 'y' !in "off_first_30min";
    assert 'y' !in "off_second_30min" && 'y' !in "possible_outage";
    LacksChar(name, "maybe", 2);
  }

  /** Normalising a label leaves it alone, so normalising twice is normalising once. */
  lemma NormalizeIdempotent(code: string)
    ensures Normalize(Normalize(code)) == Normalize(code)
  {
    var name := Normalize(code);
    if name in Labels {
      LabelsLackMaybe(name);
    }
  }

  /** Distinct known codes get distinct labels, and "maybe" codes never collide with them. */
  lemma NormalizeSeparatesCodes(c1: string, c2: string)
    requires c1 in {"yes", "no", "first", "second"} && c1 != c2
    requires c2 in {"yes", "no", "first", "second"} || (Contains(c2, "maybe") && c2 !in {"yes", "no", "first", "second"})
    ensures Normalize(c1) != Normalize(c2)
  {
  }
}
