/**
 * The block extractor of `parse_schedule`: find a marker, take the first `{` after it and scan
 * forward with a signed brace counter until a `}` brings the counter back to zero. The scan counts
 * every brace, including braces inside quoted JSON strings.
 */
module Extractor {
  import opened Wrappers
  import opened Text

  const FactMarker: string := "DisconSchedule.fact = {"
  const PresetMarker: string := "DisconSchedule.preset = {"

  /** Change of the brace counter on one character. */
  function Delta(c: char): (d: int)
  {
    if c == '{' then 1 else if c == '}' then -1 else 0
  }

  /** The counter after scanning `s`: the number of `{` minus the number of `}`. */
  function Depth(s: string): (d: int)
  {
    if s == [] then 0 else Depth(s[..|s| - 1]) + Delta(s[|s| - 1])
  }

  /** The scan may stop after `t[..k]`: its last character is `}` and the counter is zero there. */
  ghost predicate ClosesAt(t: string, k: int) {
    0 < k <= |t| && t[k - 1] == '}' && Depth(t[..k]) == 0
  }

  /** `t[..k]` is where the scan stops: the first place it may stop. */
  ghost predicate IsFirstClose(t: string, k: int) {
    ClosesAt(t, k) && forall j :: 0 < j < k ==> !ClosesAt(t, j)
  }

  /** The scan runs off the end of `t` without stopping. */
  ghost predicate NoClose(t: string) {
    forall j :: 0 < j <= |t| ==> !ClosesAt(t, j)
  }

  /** A balanced object: opens with `{`, closes with `}`, the count of `{` minus `}` is zero,
      and every proper non-empty prefix has a positive count. */
  ghost predicate Balanced(o: string) {
    && |o| > 0 && o[0] == '{' && o[|o| - 1] == '}' && Depth(o) == 0
    && forall j :: 0 < j < |o| ==> Depth(o[..j]) > 0
  }

  /** What the scan of `t` yields: the object text, or nothing when the braces never balance. */
  ghost predicate ScannedAs(t: string, obj: Option<string>) {
    match obj
    case Some(o) => |o| <= |t| && o == t[..|o|] && IsFirstClose(t, |o|)
    case None => NoClose(t)
  }

  /** The marker occurs in `html`, and scanning from the marker's own closing `{` yields `obj`. */
  ghost predicate BlockAfter(html: string, marker: string, obj: Option<string>) {
    var at := Find(html, marker, 0);
    var start := at + |marker| - 1;
    at >= 0 && 0 <= start < |html| && ScannedAs(html[start..], obj)
  }

  /** An object extracted after either marker is balanced: the shortest balanced prefix that
      starts at the marker's own `{`. */
  lemma BlockAfterBalanced(html: string, marker: string, o: string)
    requires SoleBraceAtEnd(marker) && BlockAfter(html, marker, Some(o))
    ensures Balanced(o)
  {
    var at := Find(html, marker, 0);
    var start := at + |marker| - 1;
    assert html[at..at + |marker|][|marker| - 1] == html[start];
    assert html[start..][0] == '{';
    FirstCloseIsBalanced(html[start..], |o|);
  }

  /** Each marker determines at most one extracted object. */
  lemma BlockAfterUnique(html: string, marker: string, o1: string, o2: string)
    requires BlockAfter(html, marker, Some(o1)) && BlockAfter(html, marker, Some(o2))
    ensures o1 == o2
  {
    var start := Find(html, marker, 0) + |marker| - 1;
    FirstCloseUnique(html[start..], |o1|, |o2|);
  }

  /** A marker whose braces never balance yields no object. */
  lemma BlockAfterExclusive(html: string, marker: string, o: string)
    requires BlockAfter(html, marker, None)
    ensures !BlockAfter(html, marker, Some(o))
  {
  }

  /** Proof helper for the invariant of `ScanObject`: `Depth`'s own definition unfolded at the
      prefix `t[..n + 1]`, after rewriting `t[..n + 1][..n]` to `t[..n]`. */
  lemma DepthSnoc(t: string, n: nat)
    requires n < |t|
    ensures Depth(t[..n + 1]) == Depth(t[..n]) + Delta(t[n])
  {
    assert t[..n + 1][..n] == t[..n];
  }

  /** Result of one brace scan: the absolute end index (exclusive), or no balance. */
  datatype Scan = Closed(end: nat) | Unclosed

  /** The `for i, char in enumerate(html[json_start:], start=json_start)` loop. */
  method ScanObject(html: string, start: nat) returns (r: Scan)
    requires start <= |html|
    ensures r.Closed? ==> start < r.end <= |html| && IsFirstClose(html[start..], r.end - start)
    ensures r.Unclosed? ==> NoClose(html[start..])
  {
    ghost var t := html[start..];
    var braceCount := 0;
    var i := start;
    while i < |html|
      invariant start <= i <= |html|
      invariant braceCount == Depth(t[..i - start])
      invariant forall j :: 0 < j <= i - start ==> !ClosesAt(t, j)
    {
      DepthSnoc(t, i - start);
      var c := html[i];
      if c == '{' {
        braceCount := braceCount + 1;
      } else if c == '}' {
        braceCount := braceCount - 1;
        if braceCount == 0 {
          assert ClosesAt(t, i + 1 - start);
          return Closed(i + 1);
        }
      }
      i := i + 1;
    }
    r := Unclosed;
  }

  /** A block that starts with `{` is balanced exactly up to where the scan stops. */
  lemma {:induction false} PrefixPositive(t: string, k: int, j: int)
    requires |t| > 0 && t[0] == '{' && IsFirstClose(t, k) && 0 < j < k
    ensures Depth(t[..j]) > 0
    decreases j
  {
    DepthSnoc(t, j - 1);
    if j == 1 {
      assert t[..0] == [];
    } else {
      PrefixPositive(t, k, j - 1);
      assert !ClosesAt(t, j);
    }
  }

  lemma FirstCloseIsBalanced(t: string, k: int)
    requires |t| > 0 && t[0] == '{' && IsFirstClose(t, k)
    ensures Balanced(t[..k])
  {
    forall j | 0 < j < k ensures Depth(t[..k][..j]) > 0 {
      PrefixPositive(t, k, j);
      assert t[..k][..j] == t[..j];
    }
  }

  /** Conversely a balanced object followed by any text is cut exactly at its closing brace. */
  lemma BalancedIsFirstClose(o: string, rest: string)
    requires Balanced(o)
    ensures IsFirstClose(o + rest, |o|)
  {
    var t := o + rest;
    assert t[..|o|] == o;
    forall j | 0 < j < |o| ensures !ClosesAt(t, j) {
      assert t[..j] == o[..j];
    }
  }

  /** Text after the closing brace does not affect where the scan stops. */
  lemma TrailingIgnored(t: string, k: int, u: string)
    requires IsFirstClose(t, k) && k <= |u| && u[..k] == t[..k]
    ensures IsFirstClose(u, k)
  {
    forall j | 0 < j <= k ensures ClosesAt(u, j) == ClosesAt(t, j) {
      assert u[..j] == u[..k][..j] && t[..j] == t[..k][..j];
      assert u[..k][j - 1] == t[..k][j - 1];
    }
  }

  /** The scan has at most one stopping place. */
  lemma FirstCloseUnique(t: string, k1: int, k2: int)
    requires IsFirstClose(t, k1) && IsFirstClose(t, k2)
    ensures k1 == k2
  {
  }

  /** Both markers contain a single `{`, their last character. */
  predicate SoleBraceAtEnd(marker: string) {
    |marker| > 0 && marker[|marker| - 1] == '{' && '{' !in marker[..|marker| - 1]
  }

  lemma MarkersEndInSoleBrace()
    ensures SoleBraceAtEnd(FactMarker) && SoleBraceAtEnd(PresetMarker)
  {
  }

  /** `html.find('{', at)` for a marker found at `at` lands on the marker's own `{`. */
  lemma MarkerObjectStart(html: string, marker: string, at: nat)
    requires SoleBraceAtEnd(marker) && OccursAt(html, marker, at)
    ensures Find(html, "{", at) == at + |marker| - 1
    ensures at + |marker| - 1 < |html| && html[at + |marker| - 1] == '{'
  {
    var last := at + |marker| - 1;
    assert html[at..at + |marker|][|marker| - 1] == marker[|marker| - 1];
    assert html[last..last + 1] == "{";
    assert OccursAt(html, "{", last);
    forall j | at <= j < last ensures !OccursAt(html, "{", j) {
      assert html[at..at + |marker|][j - at] == html[j];
      assert marker[..|marker| - 1][j - at] == marker[j - at];
    }
  }

  datatype ExtractError = MissingFactMarker

  /** The two extracted texts: the fact object (empty when its braces never balance, as the
      unmoved `json_end` leaves it) and the preset object (None stands for the default `{}`). */
  datatype Blocks = Blocks(fact: string, preset: Option<string>)

  /** One marker's block: find the marker, then the first `{` after it, then scan. */
  method LocateBlock(html: string, marker: string) returns (at: int, start: int, scan: Scan)
    requires SoleBraceAtEnd(marker)
    ensures at == Find(html, marker, 0)
    ensures at != -1 ==> start == at + |marker| - 1 && 0 <= start < |html| && html[start] == '{'
    ensures at != -1 && scan.Closed? ==> start < scan.end <= |html| && BlockAfter(html, marker, Some(html[start..scan.end]))
    ensures at != -1 && scan.Unclosed? ==> BlockAfter(html, marker, None)
  {
    at := Find(html, marker, 0);
    start, scan := 0, Unclosed;
    if at != -1 {
      MarkerObjectStart(html, marker, at);
      start := Find(html, "{", at);
      scan := ScanObject(html, start);
      ghost var t := html[start..];
      if scan.Closed? {
        ghost var o := html[start..scan.end];
        assert o == t[..scan.end - start] && |o| == scan.end - start;
        assert ScannedAs(t, Some(o));
      } else {
        assert ScannedAs(t, None);
      }
    }
  }

  /** `parse_schedule` up to, but not including, `json.loads`. */
  method ExtractBlocks(html: string) returns (r: Result<Blocks, ExtractError>)
    ensures r.Failure? <==> !Contains(html, FactMarker)
    ensures r.Success? ==> BlockAfter(html, FactMarker, if r.value.fact == "" then None else Some(r.value.fact))
    ensures r.Success? && r.value.preset.Some? ==> BlockAfter(html, PresetMarker, r.value.preset)
    ensures r.Success? && r.value.preset.None? ==> !Contains(html, PresetMarker) || BlockAfter(html, PresetMarker, None)
  {
    MarkersEndInSoleBrace();
    var factStart, jsonStart, scan := LocateBlock(html, FactMarker);
    if factStart == -1 {
      return Failure(MissingFactMarker);
    }
    var jsonEnd := jsonStart;
    if scan.Closed? {
      jsonEnd := scan.end;
    }
    var fact := html[jsonStart..jsonEnd];

    var preset: Option<string> := None;
    var presetStart, presetJsonStart, presetScan := LocateBlock(html, PresetMarker);
    if presetStart != -1 && presetScan.Closed? {
      preset := Some(html[presetJsonStart..presetScan.end]);
    }
    r := Success(Blocks(fact, preset));
  }
}
