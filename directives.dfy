/**
  The text handling of external binding: substring search with the semantics
  of `std::string::find`, the `__imp_` import prefix, and the library names
  declared in the linker-directive section as `/DEFAULTLIB:"name.lib"`.
 */
module Directives {
  import opened Wrappers
  import opened Bytes

  /** The prefix the compiler gives to symbols imported through `dllimport`. */
  const ImportPrefix: string := "__imp_"

  /** What precedes each library name in the directive text. */
  const DefaultLibMarker: string := "/DEFAULTLIB:\""

  /** What ends each library name in the directive text. */
  const Quote: string := "\""

  /** The suffix written over the last three characters of a library name. */
  const DllSuffix: string := "dll"

  predicate OccursAt(s: string, pat: string, i: nat)
  {
    i + |pat| <= |s| && s[i..i + |pat|] == pat
  }

  /** `s.find(pat, from)`: the first position at or after `from` where `pat`
      occurs in `s`, or None for `npos`. */
  function Find(s: string, pat: string, from: nat): (r: Option<nat>)
    ensures r.Some? ==> from <= r.value && OccursAt(s, pat, r.value)
    ensures forall i :: from <= i && (r.None? || i < r.value) ==> !OccursAt(s, pat, i)
    decreases |s| - from
  {
    if from + |pat| > |s| then None
    else if OccursAt(s, pat, from) then Some(from)
    else Find(s, pat, from + 1)
  }

  /** `s.find(pat) != npos`. */
  function Contains(s: string, pat: string): (b: bool)
    ensures b <==> exists i: nat :: OccursAt(s, pat, i)
  {
    Find(s, pat, 0).Some?
  }

  predicate HasImportPrefix(name: string)
  {
    |name| >= |ImportPrefix| && name[..|ImportPrefix|] == ImportPrefix
  }

  /** The name looked up for an external symbol: `name.substr(6)` when
      `name.substr(0, 6) == "__imp_"`, otherwise the name itself. */
  function LookupName(name: string): (r: string)
    ensures HasImportPrefix(name) ==> name == ImportPrefix + r
    ensures !HasImportPrefix(name) ==> r == name
  {
    if HasImportPrefix(name) then name[|ImportPrefix|..] else name
  }

  /** The directive section read as a C string: its bytes up to the first
      NUL (or all of them when there is none). */
  function DirectiveText(data: seq<Byte>): (t: string)
    ensures |t| <= |data|
    ensures forall i :: 0 <= i < |t| ==> data[i] != 0 && t[i] == data[i] as char
    ensures |t| < |data| ==> data[|t|] == 0
  {
    if data == [] || data[0] == 0 then []
    else [data[0] as char] + DirectiveText(data[1..])
  }

  /** Where the library name starting at `start` ends: at the next quote,
      or at the end of the text when no quote follows. */
  function NameEnd(text: string, start: nat): (e: nat)
    requires start <= |text|
    ensures start <= e <= |text|
    ensures forall i :: start <= i < e ==> text[i] != '"'
    ensures e < |text| ==> text[e] == '"'
  {
    match Find(text, Quote, start)
    case Some(p) =>
      assert text[p..p + 1] == [text[p]];
      NoQuoteBefore(text, start, p);
      p
    case None =>
      NoQuoteBefore(text, start, |text|);
      |text|
  }

  lemma NoQuoteBefore(text: string, start: nat, end: nat)
    requires end <= |text|
    requires forall i :: start <= i < end ==> !OccursAt(text, Quote, i)
    ensures forall i :: start <= i < end ==> text[i] != '"'
  {
    forall i | start <= i < end
      ensures text[i] != '"'
    {
      assert !OccursAt(text, Quote, i);
      assert text[i..i + 1] == [text[i]];
      assert [text[i]] != Quote;
    }
  }

  /** The library names found by the scan of the directive text that starts
      at the marker occurrence `pos1`: the name after that marker, then the
      names found from the next marker occurrence that starts after the
      first character of the name. */
  function LibraryNamesFrom(text: string, pos1: Option<nat>): seq<string>
    requires pos1.Some? ==> OccursAt(text, DefaultLibMarker, pos1.value)
    decreases if pos1.Some? then |text| - pos1.value + 1 else 0
  {
    match pos1
    case None => []
    case Some(p) =>
      var start := p + |DefaultLibMarker|;
      [text[start..NameEnd(text, start)]] + LibraryNamesFrom(text, Find(text, DefaultLibMarker, start + 1))
  }

  /** The declared library names, in the order the scan finds them. */
  function LibraryNames(text: string): seq<string>
  {
    LibraryNamesFrom(text, Find(text, DefaultLibMarker, 0))
  }

  /** The module name tried for a declared library: its last three
      characters (`lib`) replaced by `dll`. */
  function DllName(name: string): (r: string)
    requires |name| >= 3
    ensures |r| == |name|
    ensures r[..|r| - 3] == name[..|name| - 3] && r[|r| - 3..] == DllSuffix
  {
    name[..|name| - 3] + DllSuffix
  }

  /** Every position at or after `from` where the marker occurs, in
      increasing order. */
  function MarkerPositions(text: string, from: nat): (ps: seq<nat>)
    ensures forall k :: 0 <= k < |ps| ==> from <= ps[k] && OccursAt(text, DefaultLibMarker, ps[k])
    ensures forall p :: from <= p && OccursAt(text, DefaultLibMarker, p) ==> p in ps
    ensures forall i, j :: 0 <= i < j < |ps| ==> ps[i] < ps[j]
    decreases |text| - from
  {
    if from >= |text| then []
    else (if OccursAt(text, DefaultLibMarker, from) then [from] else []) + MarkerPositions(text, from + 1)
  }

  /** The text never holds the marker twice in a row, so no library name
      starts with a marker. */
  ghost predicate NoAdjacentMarkers(text: string)
  {
    !Contains(text, DefaultLibMarker + DefaultLibMarker)
  }

  /** Two marker occurrences never overlap: the marker has `/` only at its
      first position. */
  lemma MarkersDoNotOverlap(text: string, p: nat, q: nat)
    requires OccursAt(text, DefaultLibMarker, p) && OccursAt(text, DefaultLibMarker, q)
    requires p < q
    ensures q >= p + |DefaultLibMarker|
  {
    forall i | p < i < p + |DefaultLibMarker|
      ensures text[i] != '/'
    {
      assert text[i] == text[p..p + |DefaultLibMarker|][i - p];
    }
    assert text[q] == text[q..q + |DefaultLibMarker|][0];
  }

  lemma {:induction false} MarkerPositionsSkip(text: string, from: nat, to: nat)
    requires from <= to
    requires forall i :: from <= i < to ==> !OccursAt(text, DefaultLibMarker, i)
    ensures MarkerPositions(text, from) == MarkerPositions(text, to)
    decreases (to as int) - (from as int)
  {
    if from < to && from < |text| {
      MarkerPositionsSkip(text, from + 1, to);
    }
  }

  /** After a marker occurrence the next one, if any, starts after the
      first character of the name that follows it. */
  lemma NextMarker(text: string, p: nat)
    requires NoAdjacentMarkers(text)
    requires OccursAt(text, DefaultLibMarker, p)
    ensures MarkerPositions(text, p) == [p] + MarkerPositions(text, p + |DefaultLibMarker| + 1)
  {
    var start := p + |DefaultLibMarker|;
    forall i | p + 1 <= i < start
      ensures !OccursAt(text, DefaultLibMarker, i)
    {
      if OccursAt(text, DefaultLibMarker, i) {
        MarkersDoNotOverlap(text, p, i);
      }
    }
    if OccursAt(text, DefaultLibMarker, start) {
      assert text[p..start + |DefaultLibMarker|] == text[p..start] + text[start..start + |DefaultLibMarker|];
      assert OccursAt(text, DefaultLibMarker + DefaultLibMarker, p);
    }
    MarkerPositionsSkip(text, p + 1, start + 1);
  }

  /** `name` is the library name that follows the marker occurrence at
      `p`: the text from the end of the marker to the next quote (or to the
      end of the text). */
  ghost predicate NameAfter(text: string, name: string, p: nat)
  {
    p + |DefaultLibMarker| <= |text| &&
    name == text[p + |DefaultLibMarker|..NameEnd(text, p + |DefaultLibMarker|)]
  }

  /** The library names the scan finds from marker occurrence `p` on line
      up with the marker occurrences from `p` on. */
  ghost predicate NamesMatchMarkers(text: string, names: seq<string>, ps: seq<nat>)
  {
    |names| == |ps| && forall k :: 0 <= k < |ps| ==> NameAfter(text, names[k], ps[k])
  }

  lemma NamesMatchMarkersCons(text: string, p: nat, names: seq<string>, ps: seq<nat>)
    requires OccursAt(text, DefaultLibMarker, p)
    requires NamesMatchMarkers(text, names, ps)
    ensures var start := p + |DefaultLibMarker|;
            NamesMatchMarkers(text, [text[start..NameEnd(text, start)]] + names, [p] + ps)
  {
    var start := p + |DefaultLibMarker|;
    var names' := [text[start..NameEnd(text, start)]] + names;
    var ps' := [p] + ps;
    assert NameAfter(text, names'[0], ps'[0]);
    forall k | 1 <= k < |ps'|
      ensures NameAfter(text, names'[k], ps'[k])
    {
      assert names'[k] == names[k - 1] && ps'[k] == ps[k - 1];
    }
  }

  /** Without a marker right after a marker, the scan yields one library
      name per marker occurrence, in text order, each running from the end
      of its marker to the next quote (or the end of the text). */
  lemma {:induction false} LibraryNamesFromMarkers(text: string, from: nat)
    requires NoAdjacentMarkers(text)
    ensures NamesMatchMarkers(text, LibraryNamesFrom(text, Find(text, DefaultLibMarker, from)), MarkerPositions(text, from))
    decreases |text| - from
  {
    match Find(text, DefaultLibMarker, from)
    case None =>
      if from < |text| {
        MarkerPositionsSkip(text, from, |text|);
        assert MarkerPositions(text, |text|) == [];
      }
      assert MarkerPositions(text, from) == [];
    case Some(p) =>
      var start := p + |DefaultLibMarker|;
      var names := LibraryNamesFrom(text, Find(text, DefaultLibMarker, start + 1));
      var ps := MarkerPositions(text, start + 1);
      MarkerPositionsSkip(text, from, p);
      NextMarker(text, p);
      assert MarkerPositions(text, from) == [p] + ps;
      assert LibraryNamesFrom(text, Some(p)) == [text[start..NameEnd(text, start)]] + names;
      LibraryNamesFromMarkers(text, start + 1);
      NamesMatchMarkersCons(text, p, names, ps);
  }
}
