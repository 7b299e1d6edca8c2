/**
 * The credits grouping done by the start-click handler: the parsed rows are
 * turned, in order, into section headers and role/name lines.
 */
module Credits {
  import opened Options

  /** One parsed row: its keys in enumeration order and its string fields. */
  datatype Row = Row(keys: seq<string>, fields: map<string, string>)

  /** The three property names read from every row, bound by position. */
  datatype Columns = Columns(section: string, role: string, name: string)

  /** A rendered unit of the credits: a section header or a role/name line. */
  datatype Entry = SectionHeader(section: string) | CreditLine(role: string, name: string)

  /** `row[undefined]` reads the property named "undefined". */
  const UNDEFINED_KEY: string := "undefined"

  /** The i-th key of the first row, or what an out-of-range index reads as. */
  function HeaderKey(keys: seq<string>, i: nat): string
  {
    if i < |keys| then keys[i] else UNDEFINED_KEY
  }

  /** Columns 0, 1 and 2 of the first row's keys: section, role and name. */
  function ColumnsOf(rows: seq<Row>): Columns
  {
    var keys := if |rows| > 0 then rows[0].keys else [];
    Columns(HeaderKey(keys, 0), HeaderKey(keys, 1), HeaderKey(keys, 2))
  }

  /** `row[key] || ''`: a missing field reads as the empty string. */
  function Field(r: Row, key: string): string
  {
    if key in r.fields then r.fields[key] else ""
  }

  function SectionOf(r: Row, c: Columns): string
  {
    Field(r, c.section)
  }

  function LineOf(r: Row, c: Columns): Entry
  {
    CreditLine(Field(r, c.role), Field(r, c.name))
  }

  /** The last non-empty section value among the first n rows, if any. */
  function LastSection(rows: seq<Row>, c: Columns, n: nat): Option<string>
    requires n <= |rows|
  {
    if n == 0 then None
    else if SectionOf(rows[n - 1], c) != "" then Some(SectionOf(rows[n - 1], c))
    else LastSection(rows, c, n - 1)
  }

  /** Row i opens a section: its section is non-empty and differs from the last one seen. */
  predicate StartsSection(rows: seq<Row>, c: Columns, i: nat)
    requires i < |rows|
  {
    var s := SectionOf(rows[i], c);
    s != "" && Some(s) != LastSection(rows, c, i)
  }

  /** What row i contributes: possibly a header, then always its line. */
  function RowEntries(rows: seq<Row>, c: Columns, i: nat): seq<Entry>
    requires i < |rows|
  {
    (if StartsSection(rows, c, i) then [SectionHeader(SectionOf(rows[i], c))] else [])
    + [LineOf(rows[i], c)]
  }

  /** The entries of the first n rows, row after row. */
  function Entries(rows: seq<Row>, c: Columns, n: nat): seq<Entry>
    requires n <= |rows|
  {
    if n == 0 then [] else Entries(rows, c, n - 1) + RowEntries(rows, c, n - 1)
  }

  /** The credits of a whole row sequence, read through the first row's columns. */
  function CreditEntries(rows: seq<Row>): seq<Entry>
  {
    Entries(rows, ColumnsOf(rows), |rows|)
  }

  /** The grouping loop: `currentSection` is carried from row to row. */
  method BuildCredits(rows: seq<Row>) returns (entries: seq<Entry>)
    ensures entries == CreditEntries(rows)
  {
    var columns := ColumnsOf(rows);
    var currentSection: Option<string> := None;
    entries := [];
    for i := 0 to |rows|
      invariant currentSection == LastSection(rows, columns, i)
      invariant entries == Entries(rows, columns, i)
    {
      var section := Field(rows[i], columns.section);
      var role := Field(rows[i], columns.role);
      var name := Field(rows[i], columns.name);
      if section != "" && Some(section) != currentSection {
        entries := entries + [SectionHeader(section)];
        currentSection := Some(section);
      }
      entries := entries + [CreditLine(role, name)];
    }
  }

  // ----- Views of an entry sequence -----

  /** The role/name lines of an entry sequence, in order. */
  function LinesOf(e: seq<Entry>): seq<Entry>
  {
    if e == [] then []
    else (if e[0].CreditLine? then [e[0]] else []) + LinesOf(e[1..])
  }

  /** The section names of the headers of an entry sequence, in order. */
  function HeadersOf(e: seq<Entry>): seq<string>
  {
    if e == [] then []
    else (if e[0].SectionHeader? then [e[0].section] else []) + HeadersOf(e[1..])
  }

  lemma {:induction false} LinesOfAppend(a: seq<Entry>, b: seq<Entry>)
    ensures LinesOf(a + b) == LinesOf(a) + LinesOf(b)
  {
    if a != [] {
      assert (a + b)[1..] == a[1..] + b;
      LinesOfAppend(a[1..], b);
    } else {
      assert a + b == b;
    }
  }

  lemma {:induction false} HeadersOfAppend(a: seq<Entry>, b: seq<Entry>)
    ensures HeadersOf(a + b) == HeadersOf(a) + HeadersOf(b)
  {
    if a != [] {
      assert (a + b)[1..] == a[1..] + b;
      HeadersOfAppend(a[1..], b);
    } else {
      assert a + b == b;
    }
  }

  // ----- Reference sequences over the rows -----

  /** One line per row: the lines of the first n rows. */
  function RowLines(rows: seq<Row>, c: Columns, n: nat): (r: seq<Entry>)
    requires n <= |rows|
    ensures |r| == n
  {
    seq(n, i requires 0 <= i < n => LineOf(rows[i], c))
  }

  /** The section values of the first n rows. */
  function Sections(rows: seq<Row>, c: Columns, n: nat): (r: seq<string>)
    requires n <= |rows|
    ensures |r| == n
  {
    seq(n, i requires 0 <= i < n => SectionOf(rows[i], c))
  }

  /** The non-empty values of a sequence, in order. */
  function NonEmpty(ss: seq<string>): seq<string>
  {
    if ss == [] then []
    else NonEmpty(ss[..|ss| - 1]) + (if ss[|ss| - 1] == "" then [] else [ss[|ss| - 1]])
  }

  /** A sequence with every run of equal adjacent values collapsed to one value. */
  function Collapse(ss: seq<string>): seq<string>
  {
    if ss == [] then []
    else
      var p := Collapse(ss[..|ss| - 1]);
      if p != [] && p[|p| - 1] == ss[|ss| - 1] then p else p + [ss[|ss| - 1]]
  }

  /** The number of positions where a sequence starts or changes value. */
  function Changes(ss: seq<string>): nat
  {
    if ss == [] then 0
    else Changes(ss[..|ss| - 1]) + (if |ss| == 1 || ss[|ss| - 2] != ss[|ss| - 1] then 1 else 0)
  }

  function LastOf(ss: seq<string>): Option<string>
  {
    if ss == [] then None else Some(ss[|ss| - 1])
  }

  // ----- Properties -----

  /** Every row yields exactly one role/name line, in input order. */
  lemma {:induction false} OneLinePerRow(rows: seq<Row>, c: Columns, n: nat)
    requires n <= |rows|
    ensures LinesOf(Entries(rows, c, n)) == RowLines(rows, c, n)
  {
    if n > 0 {
      OneLinePerRow(rows, c, n - 1);
      LinesOfAppend(Entries(rows, c, n - 1), RowEntries(rows, c, n - 1));
      var h: seq<Entry> := if StartsSection(rows, c, n - 1) then [SectionHeader(SectionOf(rows[n - 1], c))] else [];
      LinesOfAppend(h, [LineOf(rows[n - 1], c)]);
      assert LinesOf([LineOf(rows[n - 1], c)]) == [LineOf(rows[n - 1], c)];
      assert RowLines(rows, c, n) == RowLines(rows, c, n - 1) + [LineOf(rows[n - 1], c)];
    }
  }

  lemma {:induction false} CollapseKeepsLast(ss: seq<string>)
    ensures LastOf(Collapse(ss)) == LastOf(ss)
  {
  }

  /** The current section after n rows is the last non-empty section value. */
  lemma {:induction false} LastSectionIsLastNonEmpty(rows: seq<Row>, c: Columns, n: nat)
    requires n <= |rows|
    ensures LastSection(rows, c, n) == LastOf(NonEmpty(Sections(rows, c, n)))
  {
    if n > 0 {
      var ss := Sections(rows, c, n);
      assert ss[..n - 1] == Sections(rows, c, n - 1);
      LastSectionIsLastNonEmpty(rows, c, n - 1);
    }
  }

  /** The headers row i contributes: its section, exactly when it opens one. */
  lemma RowHeaders(rows: seq<Row>, c: Columns, i: nat)
    requires i < |rows|
    ensures HeadersOf(RowEntries(rows, c, i))
            == if StartsSection(rows, c, i) then [SectionOf(rows[i], c)] else []
  {
    var h: seq<Entry> := if StartsSection(rows, c, i) then [SectionHeader(SectionOf(rows[i], c))] else [];
    HeadersOfAppend(h, [LineOf(rows[i], c)]);
    assert HeadersOf([LineOf(rows[i], c)]) == [];
  }

  /** The non-empty section values of n rows extend those of n - 1 rows by row n - 1's. */
  lemma NonEmptySectionsStep(rows: seq<Row>, c: Columns, n: nat)
    requires 0 < n <= |rows|
    ensures var s := SectionOf(rows[n - 1], c);
            NonEmpty(Sections(rows, c, n))
            == NonEmpty(Sections(rows, c, n - 1)) + (if s == "" then [] else [s])
  {
    var ss := Sections(rows, c, n);
    assert ss[..n - 1] == Sections(rows, c, n - 1);
  }

  lemma CollapseSnoc(p: seq<string>, s: string)
    ensures Collapse(p + [s]) == if LastOf(Collapse(p)) == Some(s) then Collapse(p) else Collapse(p) + [s]
  {
    assert (p + [s])[..|p + [s]| - 1] == p;
  }

  /**
   * The headers are the non-empty section values with repeats collapsed:
   * empty or repeated values never produce another header.
   */
  lemma {:induction false} HeadersAreSectionChanges(rows: seq<Row>, c: Columns, n: nat)
    requires n <= |rows|
    ensures HeadersOf(Entries(rows, c, n)) == Collapse(NonEmpty(Sections(rows, c, n)))
  {
    if n > 0 {
      var s := SectionOf(rows[n - 1], c);
      var prev := NonEmpty(Sections(rows, c, n - 1));
      var cp := Collapse(prev);
      var starts := StartsSection(rows, c, n - 1);
      HeadersAreSectionChanges(rows, c, n - 1);
      assert Entries(rows, c, n) == Entries(rows, c, n - 1) + RowEntries(rows, c, n - 1);
      HeadersOfAppend(Entries(rows, c, n - 1), RowEntries(rows, c, n - 1));
      RowHeaders(rows, c, n - 1);
      assert HeadersOf(Entries(rows, c, n)) == cp + (if starts then [s] else []);
      NonEmptySectionsStep(rows, c, n);
      LastSectionIsLastNonEmpty(rows, c, n - 1);
      CollapseKeepsLast(prev);
      assert starts <==> s != "" && Some(s) != LastOf(cp);
      if s != "" {
        CollapseSnoc(prev, s);
        assert NonEmpty(Sections(rows, c, n)) == prev + [s];
      } else {
        assert NonEmpty(Sections(rows, c, n)) == prev;
        assert cp + [] == cp;
      }
    }
  }

  lemma {:induction false} CollapseCountsChanges(ss: seq<string>)
    ensures |Collapse(ss)| == Changes(ss)
  {
    if ss != [] {
      var init := ss[..|ss| - 1];
      CollapseCountsChanges(init);
      CollapseKeepsLast(init);
      if |ss| > 1 {
        assert init[|init| - 1] == ss[|ss| - 2];
      }
    }
  }

  lemma {:induction false} CollapseHasNoRepeats(ss: seq<string>)
    ensures forall k :: 0 < k < |Collapse(ss)| ==> Collapse(ss)[k - 1] != Collapse(ss)[k]
  {
    if ss != [] {
      CollapseHasNoRepeats(ss[..|ss| - 1]);
    }
  }

  lemma {:induction false} CollapseKeepsValues(ss: seq<string>)
    ensures forall x :: x in Collapse(ss) ==> x in ss
  {
    if ss != [] {
      var init := ss[..|ss| - 1];
      CollapseKeepsValues(init);
      forall x | x in init ensures x in ss {
        var k :| 0 <= k < |init| && init[k] == x;
        assert ss[k] == x;
      }
    }
  }

  lemma {:induction false} NonEmptyHasNoEmpty(ss: seq<string>)
    ensures "" !in NonEmpty(ss)
  {
    if ss != [] {
      NonEmptyHasNoEmpty(ss[..|ss| - 1]);
    }
  }

  /**
   * The number of section headers equals the number of changes in the
   * sequence of non-empty section values; no header is empty and no two
   * consecutive headers name the same section.
   */
  lemma HeaderCount(rows: seq<Row>)
    ensures var h := HeadersOf(CreditEntries(rows));
            var ss := NonEmpty(Sections(rows, ColumnsOf(rows), |rows|));
            && |h| == Changes(ss)
            && "" !in h
            && forall k :: 0 < k < |h| ==> h[k - 1] != h[k]
  {
    var ss := NonEmpty(Sections(rows, ColumnsOf(rows), |rows|));
    HeadersAreSectionChanges(rows, ColumnsOf(rows), |rows|);
    CollapseCountsChanges(ss);
    CollapseHasNoRepeats(ss);
    CollapseKeepsValues(ss);
    NonEmptyHasNoEmpty(Sections(rows, ColumnsOf(rows), |rows|));
  }

  /**
   * A header is immediately followed by the line of the row that triggered
   * it: the row just after the lines that precede the header, whose section
   * it names and which opens a section.
   */
  lemma {:induction false} HeaderPrecedesItsLine(rows: seq<Row>, c: Columns, n: nat, k: nat)
    requires n <= |rows|
    requires k < |Entries(rows, c, n)| && Entries(rows, c, n)[k].SectionHeader?
    ensures var e := Entries(rows, c, n);
            var j := |LinesOf(e[..k])|;
            && k + 1 < |e| && j < n
            && e[k + 1] == LineOf(rows[j], c)
            && e[k].section == SectionOf(rows[j], c)
            && StartsSection(rows, c, j)
  {
    var e := Entries(rows, c, n);
    var a := Entries(rows, c, n - 1);
    var b := RowEntries(rows, c, n - 1);
    assert e == a + b;
    if k < |a| {
      HeaderPrecedesItsLine(rows, c, n - 1, k);
      assert e[..k] == a[..k];
    } else {
      assert b[k - |a|].SectionHeader?;
      assert k == |a|;
      assert e[..k] == a;
      OneLinePerRow(rows, c, n - 1);
    }
  }

  /** f maps distinct keys to distinct keys. */
  ghost predicate Injective(f: string -> string)
  {
    forall a, b :: f(a) == f(b) ==> a == b
  }

  function Renamed(r: Row, f: string -> string): Row
    requires Injective(f)
  {
    Row(seq(|r.keys|, i requires 0 <= i < |r.keys| => f(r.keys[i])),
        map k | k in r.fields :: f(k) := r.fields[k])
  }

  function RenamedRows(rows: seq<Row>, f: string -> string): (r: seq<Row>)
    requires Injective(f)
    ensures |r| == |rows|
  {
    seq(|rows|, i requires 0 <= i < |rows| => Renamed(rows[i], f))
  }

  lemma RenamedField(r: Row, f: string -> string, key: string)
    requires Injective(f)
    ensures Field(Renamed(r, f), f(key)) == Field(r, key)
  {
  }

  /** Entries depend only on the section, role and name read from each row. */
  lemma {:induction false} EntriesDependOnFieldsOnly(rows: seq<Row>, c: Columns, rows': seq<Row>, c': Columns, n: nat)
    requires n <= |rows| == |rows'|
    requires forall i :: 0 <= i < |rows| ==>
               SectionOf(rows[i], c) == SectionOf(rows'[i], c') && LineOf(rows[i], c) == LineOf(rows'[i], c')
    ensures LastSection(rows, c, n) == LastSection(rows', c', n)
    ensures Entries(rows, c, n) == Entries(rows', c', n)
  {
    if n > 0 {
      EntriesDependOnFieldsOnly(rows, c, rows', c', n - 1);
    }
  }

  /**
   * Columns are bound by position: an injective renaming of the keys that
   * keeps their enumeration order (as a new header line does when none of
   * its names is an array index) leaves the credits unchanged, provided it
   * keeps the key that an absent column reads ("undefined").
   */
  lemma ColumnNamesAreIrrelevant(rows: seq<Row>, f: string -> string)
    requires Injective(f) && f(UNDEFINED_KEY) == UNDEFINED_KEY
    ensures CreditEntries(RenamedRows(rows, f)) == CreditEntries(rows)
  {
    var rows' := RenamedRows(rows, f);
    var c := ColumnsOf(rows);
    var c' := ColumnsOf(rows');
    if |rows| > 0 {
      assert rows'[0] == Renamed(rows[0], f);
    }
    assert c' == Columns(f(c.section), f(c.role), f(c.name));
    forall i | 0 <= i < |rows|
      ensures SectionOf(rows[i], c) == SectionOf(rows'[i], c') && LineOf(rows[i], c) == LineOf(rows'[i], c')
    {
      assert rows'[i] == Renamed(rows[i], f);
      RenamedField(rows[i], f, c.section);
      RenamedField(rows[i], f, c.role);
      RenamedField(rows[i], f, c.name);
    }
    EntriesDependOnFieldsOnly(rows, c, rows', c', |rows|);
  }

  /**
   * With fewer than three keys in the first row the name column is missing:
   * unless a row has a field named "undefined", every line's name is empty.
   */
  lemma MissingNameColumnReadsEmpty(rows: seq<Row>)
    requires |rows| > 0 && |rows[0].keys| < 3
    requires forall i :: 0 <= i < |rows| ==> UNDEFINED_KEY !in rows[i].fields
    ensures forall l :: l in LinesOf(CreditEntries(rows)) ==> l.CreditLine? && l.name == ""
  {
    var c := ColumnsOf(rows);
    OneLinePerRow(rows, c, |rows|);
    forall l | l in RowLines(rows, c, |rows|) ensures l.CreditLine? && l.name == "" {
      var i :| 0 <= i < |rows| && RowLines(rows, c, |rows|)[i] == l;
    }
  }

  /** An empty input builds no entries. */
  lemma NoRowsNoEntries()
    ensures CreditEntries([]) == []
  {
  }

  /** A row of a table whose header line is `section,role,name`. */
  function SampleRow(section: string, role: string, name: string): Row
  {
    Row(["section", "role", "name"], map["section" := section, "role" := role, "name" := name])
  }

  /** Two cast rows and one crew row: one header per section, one line per row. */
  lemma CastAndCrewExample()
    ensures CreditEntries([SampleRow("Cast", "Lead", "Alice"), SampleRow("Cast", "Support", "Bob"),
                           SampleRow("Crew", "Director", "Carol")])
            == [SectionHeader("Cast"), CreditLine("Lead", "Alice"), CreditLine("Support", "Bob"),
                SectionHeader("Crew"), CreditLine("Director", "Carol")]
  {
    var rows := [SampleRow("Cast", "Lead", "Alice"), SampleRow("Cast", "Support", "Bob"),
                 SampleRow("Crew", "Director", "Carol")];
    var c := ColumnsOf(rows);
    assert c == Columns("section", "role", "name");
    assert Entries(rows, c, 1) == [SectionHeader("Cast"), CreditLine("Lead", "Alice")];
    assert LastSection(rows, c, 1) == Some("Cast");
    assert Entries(rows, c, 2) == Entries(rows, c, 1) + [CreditLine("Support", "Bob")];
    assert LastSection(rows, c, 2) == Some("Cast");
    assert Entries(rows, c, 3) == Entries(rows, c, 2) + [SectionHeader("Crew"), CreditLine("Director", "Carol")];
  }

  /** A row with an empty section between two equal ones does not reopen the section. */
  lemma EmptySectionDoesNotReopen()
    ensures CreditEntries([SampleRow("Cast", "Lead", "Alice"), SampleRow("", "Extra", "Bob"),
                           SampleRow("Cast", "Support", "Carol")])
            == [SectionHeader("Cast"), CreditLine("Lead", "Alice"), CreditLine("Extra", "Bob"),
                CreditLine("Support", "Carol")]
  {
    var rows := [SampleRow("Cast", "Lead", "Alice"), SampleRow("", "Extra", "Bob"),
                 SampleRow("Cast", "Support", "Carol")];
    var c := ColumnsOf(rows);
    assert c == Columns("section", "role", "name");
    assert Entries(rows, c, 1) == [SectionHeader("Cast"), CreditLine("Lead", "Alice")];
    assert LastSection(rows, c, 1) == Some("Cast");
    assert Entries(rows, c, 2) == Entries(rows, c, 1) + [CreditLine("Extra", "Bob")];
    assert LastSection(rows, c, 2) == Some("Cast");
    assert Entries(rows, c, 3) == Entries(rows, c, 2) + [CreditLine("Support", "Carol")];
  }
}
