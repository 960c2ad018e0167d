/**
 * The OUI registry index: the scan of the IEEE registry text dump that fills a
 * dictionary from vendor prefix (OUI) to organisation name, keeping every
 * organisation listed under a prefix, in file order.
 */
module OuiRegistry {
  import opened Text

  /** Only the registry lines that carry this marker are entries; the rest is noise. */
  const Marker: string := "     (base 16)\t\t"

  /** The organisation name follows the first occurrence of this separator. */
  const FieldSeparator: string := "\t\t"

  /** Joins the organisations listed under one prefix. */
  const Also: string := ", also "

  predicate IsEntryLine(s: string) {
    Contains(s, Marker)
  }

  /** The marker holds a space and ends with the field separator, so an entry line holds both. */
  lemma EntryLineHasFields(s: string)
    requires IsEntryLine(s)
    ensures Contains(s, " ") && Contains(s, FieldSeparator)
  {
    var i: nat :| OccursAt(s, Marker, i);
    var m := s[i..i + 16];
    assert m == Marker;
    assert Marker[..1] == " " && Marker[14..16] == FieldSeparator;
    assert s[i..i + 1] == m[..1];
    assert s[i + 14..i + 16] == m[14..16];
    assert OccursAt(s, " ", i);
    assert OccursAt(s, FieldSeparator, i + 14);
  }

  /** The key of an entry line: `s.Split(' ')[0]`, the text before the first space. */
  function LineOui(s: string): (r: string)
    ensures r <= s && ' ' !in r
    ensures |r| < |s| ==> s[|r|] == ' '
  {
    var r := Before(s, " ");
    forall j | 0 <= j < |r| ensures r[j] != ' ' {
      assert !OccursAt(s, " ", j);
      assert s[j..j + 1] == [r[j]];
    }
    assert |r| < |s| ==> s[|r|..|r| + 1] == " ";
    r
  }

  /**
   * The organisation of an entry line: `s.Split("\t\t")[1]`, the text after the first
   * field separator and up to the next one.
   */
  function LineOrganization(s: string): (r: string)
    requires IsEntryLine(s)
    ensures Contains(s, FieldSeparator)
    ensures r <= After(s, FieldSeparator) && !Contains(r, FieldSeparator)
    ensures forall j: nat :: j < |r| ==> !OccursAt(After(s, FieldSeparator), FieldSeparator, j)
    ensures |r| < |After(s, FieldSeparator)| ==> OccursAt(After(s, FieldSeparator), FieldSeparator, |r|)
  {
    EntryLineHasFields(s);
    SecondField(s, FieldSeparator)
  }

  /**
   * The dictionary after one more registry line has been scanned: an entry line adds
   * its prefix as a key if it is new; no value is ever replaced, only extended.
   */
  function Step(dict: map<string, string>, s: string): (r: map<string, string>)
    ensures r.Keys == dict.Keys + if IsEntryLine(s) then {LineOui(s)} else {}
    ensures forall k :: k in dict ==> dict[k] <= r[k]
  {
    if !IsEntryLine(s) then dict
    else
      var oui := LineOui(s);
      var org := LineOrganization(s);
      if oui in dict then dict[oui := dict[oui] + Also + org] else dict[oui := org]
  }

  /**
   * The dictionary after all of `lines` have been scanned, in order, starting from
   * `dict`: the keys grow by exactly the prefixes the entry lines name, and a value
   * already present is never overwritten, only appended to.
   */
  function Filtered(dict: map<string, string>, lines: seq<string>): (r: map<string, string>)
    ensures r.Keys == dict.Keys + Ouis(lines)
    ensures forall k :: k in dict ==> dict[k] <= r[k]
    decreases |lines|
  {
    if |lines| == 0 then dict
    else Step(Filtered(dict, lines[..|lines| - 1]), lines[|lines| - 1])
  }

  // An independent description of the result: for each prefix, the list of names
  // it has collected, joined by the separator.

  /** The prefixes named by the entry lines among `lines`. */
  function Ouis(lines: seq<string>): set<string>
    decreases |lines|
  {
    if |lines| == 0 then {}
    else
      var s := lines[|lines| - 1];
      Ouis(lines[..|lines| - 1]) + if IsEntryLine(s) then {LineOui(s)} else {}
  }

  /** The organisations line `s` lists under prefix `k`: at most one. */
  function LineContribution(s: string, k: string): seq<string> {
    if IsEntryLine(s) && LineOui(s) == k then [LineOrganization(s)] else []
  }

  /** The organisations listed under prefix `k` by the entry lines among `lines`, in line order. */
  function Organizations(lines: seq<string>, k: string): seq<string>
    decreases |lines|
  {
    if |lines| == 0 then []
    else
      var s := lines[|lines| - 1];
      Organizations(lines[..|lines| - 1], k) + LineContribution(s, k)
  }

  /** Everything prefix `k` stands for after the scan: its value before, then the new names. */
  function History(dict: map<string, string>, lines: seq<string>, k: string): seq<string> {
    (if k in dict then [dict[k]] else []) + Organizations(lines, k)
  }

  /** `names[0] + ", also " + names[1] + ... + ", also " + names[n - 1]`. */
  function Join(names: seq<string>): string
    requires |names| > 0
  {
    if |names| == 1 then names[0]
    else Join(names[..|names| - 1]) + Also + names[|names| - 1]
  }

  lemma {:induction false} OuisHaveOrganizations(lines: seq<string>, k: string)
    ensures k in Ouis(lines) <==> |Organizations(lines, k)| > 0
    decreases |lines|
  {
    if |lines| > 0 {
      OuisHaveOrganizations(lines[..|lines| - 1], k);
    }
  }

  /** One scanned line extends the history of prefix `k` by the name it lists under `k`, if any. */
  lemma StepExtendsHistory(before: map<string, string>, s: string, k: string, prior: seq<string>)
    requires k in before <==> |prior| > 0
    requires k in before ==> before[k] == Join(prior)
    ensures var names := prior + LineContribution(s, k);
      && (k in Step(before, s) <==> |names| > 0)
      && (k in Step(before, s) ==> Step(before, s)[k] == Join(names))
  {
    if IsEntryLine(s) && LineOui(s) == k {
      var org := LineOrganization(s);
      var names := prior + [org];
      if k in before {
        assert names[..|names| - 1] == prior;
        assert Join(names) == before[k] + Also + org;
      } else {
        assert names == [org];
      }
    } else {
      assert prior + [] == prior;
      assert k in Step(before, s) <==> k in before;
      assert k in before ==> Step(before, s)[k] == before[k];
    }
  }

  lemma HistoryGrowsByLine(dict: map<string, string>, lines: seq<string>, k: string)
    requires |lines| > 0
    ensures History(dict, lines, k)
         == History(dict, lines[..|lines| - 1], k) + LineContribution(lines[|lines| - 1], k)
  {
    var init, extra := lines[..|lines| - 1], LineContribution(lines[|lines| - 1], k);
    var first := if k in dict then [dict[k]] else [];
    assert Organizations(lines, k) == Organizations(init, k) + extra;
    assert first + (Organizations(init, k) + extra) == (first + Organizations(init, k)) + extra;
  }

  lemma {:induction false} FilteredFollowsHistory(dict: map<string, string>, lines: seq<string>, k: string)
    ensures k in Filtered(dict, lines) <==> |History(dict, lines, k)| > 0
    ensures k in Filtered(dict, lines) ==> Filtered(dict, lines)[k] == Join(History(dict, lines, k))
    decreases |lines|
  {
    if |lines| > 0 {
      var init, s := lines[..|lines| - 1], lines[|lines| - 1];
      FilteredFollowsHistory(dict, init, k);
      var prior := History(dict, init, k);
      HistoryGrowsByLine(dict, lines, k);
      var before := Filtered(dict, init);
      assert Filtered(dict, lines) == Step(before, s);
      StepExtendsHistory(before, s, k, prior);
    }
  }

  /**
   * The scan in one statement: a prefix is a key afterwards exactly when it was one
   * before or some entry line names it, and its value is everything it has collected,
   * oldest first, joined by ", also ".
   */
  lemma FilteredIsJoinedHistory(dict: map<string, string>, lines: seq<string>, k: string)
    ensures k in Filtered(dict, lines) <==> k in dict || k in Ouis(lines)
    ensures k in Filtered(dict, lines) ==>
      |History(dict, lines, k)| > 0 && Filtered(dict, lines)[k] == Join(History(dict, lines, k))
  {
    FilteredFollowsHistory(dict, lines, k);
    OuisHaveOrganizations(lines, k);
  }

  /** A prefix that no entry line names keeps its value, or stays absent. */
  lemma {:induction false} FilteredUntouched(dict: map<string, string>, lines: seq<string>, k: string)
    requires k !in Ouis(lines)
    ensures k in Filtered(dict, lines) <==> k in dict
    ensures k in dict ==> Filtered(dict, lines)[k] == dict[k]
  {
    FilteredIsJoinedHistory(dict, lines, k);
    OuisHaveOrganizations(lines, k);
    if k in dict {
      assert History(dict, lines, k) == [dict[k]];
    }
  }

  /** Lines without the marker change nothing, however many of them there are. */
  lemma {:induction false} NoiseLinesIgnored(dict: map<string, string>, lines: seq<string>)
    requires forall i :: 0 <= i < |lines| ==> !IsEntryLine(lines[i])
    ensures Filtered(dict, lines) == dict
    decreases |lines|
  {
    if |lines| > 0 {
      NoiseLinesIgnored(dict, lines[..|lines| - 1]);
    }
  }

  /**
   * A registry line written as `oui + Marker + org` reads back as that entry, provided
   * the prefix holds no space or tab and the name holds no field separator.
   */
  lemma EntryLineRoundTrip(oui: string, org: string)
    requires ' ' !in oui && '\t' !in oui
    requires !Contains(org, FieldSeparator)
    ensures IsEntryLine(oui + Marker + org)
    ensures LineOui(oui + Marker + org) == oui
    ensures LineOrganization(oui + Marker + org) == org
  {
    var s := oui + Marker + org;
    var n := |oui|;
    assert s[n..n + |Marker|] == Marker;
    assert OccursAt(s, Marker, n);
    assert forall j :: 0 <= j < n ==> s[j] == oui[j];
    assert forall j :: n <= j < n + 14 ==> s[j] == Marker[j - n];
    assert forall j :: 0 <= j < 14 ==> Marker[j] != '\t';

    assert s[n..n + 1] == " ";
    forall j: nat | j < n ensures !OccursAt(s, " ", j) {
      assert s[j..j + 1] == [s[j]];
    }
    IndexOfIs(s, " ", n);

    assert s[n + 14..n + 16] == FieldSeparator;
    forall j: nat | j < n + 14 ensures !OccursAt(s, FieldSeparator, j) {
      assert s[j..j + 2][0] == s[j];
    }
    IndexOfIs(s, FieldSeparator, n + 14);
    EntryLineHasFields(s);
    var rest := After(s, FieldSeparator);
    assert Before(s, FieldSeparator) == s[..n + 14];
    assert rest == s[n + 16..];
    assert s[n + 16..] == org;
  }

  lemma OneKeyMap(m: map<string, string>, k: string, v: string)
    requires m.Keys == {k} && m[k] == v
    ensures m == map[k := v]
  {
  }

  /** Scanning one more line is one more step. */
  lemma FilteredOneMore(dict: map<string, string>, lines: seq<string>, s: string)
    ensures Filtered(dict, lines + [s]) == Step(Filtered(dict, lines), s)
  {
    assert (lines + [s])[..|lines|] == lines;
  }

  /**
   * An entry line adds its prefix with its organisation, or appends ", also " and the
   * organisation to the prefix's value; every other key keeps its value.
   */
  lemma StepOnEntry(dict: map<string, string>, s: string)
    requires IsEntryLine(s)
    ensures var k, r := LineOui(s), Step(dict, s);
      && r.Keys == dict.Keys + {k}
      && r[k] == (if k in dict then dict[k] + Also + LineOrganization(s) else LineOrganization(s))
      && forall j :: j in dict && j != k ==> r[j] == dict[j]
  {
  }

  /**
   * Two entry lines for one prefix leave one key whose value lists both organisations
   * in file order, joined by ", also ".
   */
  lemma SamePrefixAccumulates(line1: string, line2: string)
    requires IsEntryLine(line1) && IsEntryLine(line2) && LineOui(line1) == LineOui(line2)
    ensures Filtered(map[], [line1, line2])
         == map[LineOui(line1) := LineOrganization(line1) + Also + LineOrganization(line2)]
  {
    var k, org1, org2 := LineOui(line1), LineOrganization(line1), LineOrganization(line2);
    var empty: map<string, string> := map[];
    FilteredOneMore(empty, [], line1);
    FilteredOneMore(empty, [line1], line2);
    assert [] + [line1] == [line1] && [line1] + [line2] == [line1, line2];
    var first := Filtered(empty, [line1]);
    StepOnEntry(empty, line1);
    StepOnEntry(first, line2);
    OneKeyMap(Filtered(empty, [line1, line2]), k, org1 + Also + org2);
  }

  /**
   * Two entries for one prefix, `org1` then `org2` (say "Foo" then "Bar"), leave one key
   * whose value lists both in file order ("Foo, also Bar").
   */
  lemma ConflictingEntriesAccumulate(oui: string, org1: string, org2: string)
    requires ' ' !in oui && '\t' !in oui
    requires !Contains(org1, FieldSeparator) && !Contains(org2, FieldSeparator)
    ensures Filtered(map[], [oui + Marker + org1, oui + Marker + org2])
         == map[oui := org1 + ", also " + org2]
  {
    EntryLineRoundTrip(oui, org1);
    EntryLineRoundTrip(oui, org2);
    SamePrefixAccumulates(oui + Marker + org1, oui + Marker + org2);
  }

  /** The dictionary the scan fills in place (a `Dictionary<string, string>` keyed by prefix). */
  class OuiDictionary {
    var entries: map<string, string>

    constructor ()
      ensures entries == map[]
    {
      entries := map[];
    }
  }

  /**
   * Scans the registry lines in order and records each entry in `dict`: a new prefix
   * is added with its organisation; a known prefix gets ", also " and the organisation
   * appended to its value.
   */
  method FilterOuiFile(ss: seq<string>, dict: OuiDictionary)
    modifies dict
    ensures dict.entries == Filtered(old(dict.entries), ss)
    ensures dict.entries.Keys == old(dict.entries).Keys + Ouis(ss)
    ensures forall k :: k in old(dict.entries) ==> old(dict.entries)[k] <= dict.entries[k]
    ensures forall k :: k in old(dict.entries) && k !in Ouis(ss) ==> dict.entries[k] == old(dict.entries)[k]
  {
    ghost var initial := dict.entries;
    for i := 0 to |ss|
      invariant dict.entries == Filtered(initial, ss[..i])
    {
      var s := ss[i];
      assert ss[..i + 1][..i] == ss[..i];
      if Contains(s, Marker) {
        EntryLineHasFields(s);
        var oui := Before(s, " ");
        var organization := SecondField(s, FieldSeparator);
        if oui in dict.entries {
          dict.entries := dict.entries[oui := dict.entries[oui] + Also + organization];
        } else {
          dict.entries := dict.entries[oui := organization];
        }
      }
    }
    assert ss[..|ss|] == ss;
    forall k | k in initial && k !in Ouis(ss) ensures dict.entries[k] == initial[k] {
      FilteredUntouched(initial, ss, k);
    }
  }
}
