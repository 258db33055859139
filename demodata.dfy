/**
 * The demo-data script (scripts/initDb.js): one hundred records built from the
 * index alone, cycling through five industries, five record types and four
 * statuses. The connection, `deleteMany` and `insertMany` are not part of this
 * model; what is modelled is the array the script inserts.
 */
module DemoData {
  import opened Js
  import opened Records
  import opened Nlp

  const Industries: seq<string> := ["Technology", "Healthcare", "Finance", "Education", "Retail"]
  const Types: seq<string> := ["Client", "Project", "Product", "Service", "Report"]
  const Statuses: seq<string> := ["Active", "Pending", "Completed", "Archived"]

  const DemoCount: nat := 100

  /** `Math.floor(i / 5) + 1`: the number shown in a record's name. */
  function RecordNumber(i: nat): (n: nat)
    ensures i < DemoCount ==> 1 <= n <= 20
  {
    i / 5 + 1
  }

  /** A record's name: its type, a space, its record number, the sector
      separator, then its industry. */
  function DemoName(i: nat): string {
    Types[i % 5] + " " + NatToString(RecordNumber(i)) + SectorSeparator + Industries[i % 5]
  }

  /** A record's value: its status, a space, its type in lower case, the word "in",
      its industry, the words "sector, Record #" and finally its id in decimal. */
  function DemoValue(i: nat): string {
    Statuses[i % 4] + " " + Lower(Types[i % 5]) + " in " + Industries[i % 5] + " sector, Record #" + NatToString(i + 1)
  }

  /** The record the script builds for index `i`. */
  function DemoRecord(i: nat): Record {
    Record(i + 1, DemoName(i), DemoValue(i))
  }

  /** The array `Array.from({ length: 100 }, …)` builds. */
  function DemoRecords(): (rs: seq<Record>)
    ensures |rs| == DemoCount
  {
    seq(DemoCount, i requires 0 <= i => DemoRecord(i))
  }

  /** Ids run 1 to 100 in order, so they are distinct. */
  lemma DemoIds()
    ensures forall i :: 0 <= i < DemoCount ==> DemoRecords()[i].id == i + 1
    ensures forall i, j :: 0 <= i < j < DemoCount ==> DemoRecords()[i].id < DemoRecords()[j].id
    ensures DistinctIds(DemoRecords())
  {
  }

  /** A value starts with the status picked by `i % 4`, and the number at its end
      reads back as the record's id. */
  lemma DemoValueShape(i: nat)
    ensures var v, status, t := DemoValue(i), Statuses[i % 4], NatToString(i + 1);
      && |status| + |t| <= |v|
      && v[..|status|] == status
      && v[|v| - |t|..] == t
      && DigitsValue(t) == DemoRecord(i).id
  {
    DigitsValueOfNatToString(i + 1);
  }

  /** The industry names are told apart by their first letters. */
  lemma IndustriesDistinct(a: nat, b: nat)
    requires a < 5 && b < 5
    ensures Industries[a] == Industries[b] <==> a == b
  {
    assert Industries[0][0] == 'T' && Industries[1][0] == 'H' && Industries[2][0] == 'F';
    assert Industries[3][0] == 'E' && Industries[4][0] == 'R';
  }

  lemma IndustriesDashFree(k: nat)
    requires k < 5
    ensures '-' !in Industries[k]
  {
  }

  lemma TypesDashFree(k: nat)
    requires k < 5
    ensures '-' !in Types[k]
  {
  }

  /** Splitting `a - b` on the separator, when neither side holds a dash, gives `a` and `b`. */
  lemma SplitName(a: string, b: string)
    requires '-' !in a && '-' !in b
    ensures Split(a + SectorSeparator + b, SectorSeparator) == [a, b]
  {
    var sep := SectorSeparator;
    var s := a + sep + b;
    forall j | 0 <= j < |a|
      ensures !OccursAt(s, sep, j)
    {
      if j + 1 < |a| {
        assert s[j + 1] == a[j + 1] && a[j + 1] in a;
      }
      if j + 3 <= |s| {
        assert s[j..j + 3][1] == s[j + 1];
      }
    }
    assert s[|a|..|a| + 3] == sep;
    IndexOfIs(s, sep, |a|);
    assert s[..|a|] == a;
    assert s[|a| + 3..] == b;
    forall j: nat
      ensures !OccursAt(b, sep, j)
    {
      if j + 3 <= |b| {
        assert b[j..j + 3][1] == b[j + 1] && b[j + 1] in b;
      }
    }
    assert Split(b, sep) == [b];
  }

  /** The sector the NLP service reads off a demo name is the record's industry. */
  lemma DemoSector(i: nat)
    ensures SectorKey(DemoName(i)) == Industries[i % 5]
  {
    var head := Types[i % 5] + " " + NatToString(RecordNumber(i));
    var digits := NatToString(RecordNumber(i));
    assert '-' !in head by {
      TypesDashFree(i % 5);
      assert forall k :: 0 <= k < |digits| ==> IsDigit(digits[k]);
      assert '-' !in digits;
    }
    IndustriesDashFree(i % 5);
    SplitName(head, Industries[i % 5]);
  }

  /** How many indices below `n` fall on residue `k` modulo 5. */
  function ResidueCount(n: nat, k: nat): nat {
    if n == 0 then 0 else ResidueCount(n - 1, k) + (if (n - 1) % 5 == k then 1 else 0)
  }

  lemma {:induction false} ResidueCountClosed(n: nat, k: nat)
    requires k < 5
    ensures ResidueCount(n, k) == (n + 4 - k) / 5
  {
    if n > 0 {
      ResidueCountClosed(n - 1, k);
    }
  }

  /** Among the first `n` demo records, industry `k` is the sector of exactly those
      with index `k` modulo 5. */
  lemma {:induction false} SectorCountPrefix(n: nat, k: nat)
    requires n <= DemoCount && k < 5
    ensures SectorCount(DemoRecords()[..n], Industries[k]) == ResidueCount(n, k)
  {
    if n > 0 {
      var rs := DemoRecords()[..n];
      assert rs[..n - 1] == DemoRecords()[..n - 1];
      SectorCountPrefix(n - 1, k);
      DemoSector(n - 1);
      IndustriesDistinct((n - 1) % 5, k);
    }
  }

  /** Each of the five industries is the sector of exactly twenty demo records. */
  lemma IndustryCount(k: nat)
    requires k < 5
    ensures SectorCount(DemoRecords(), Industries[k]) == 20
  {
    SectorCountPrefix(DemoCount, k);
    ResidueCountClosed(DemoCount, k);
    assert DemoRecords()[..DemoCount] == DemoRecords();
  }

  /** The sectors of the demo data are exactly the five industries. */
  lemma DemoSectors()
    ensures forall x :: x in SectorsOf(DemoRecords()) <==> x in Industries
  {
    SectorsAreIndustries();
    IndustriesAreSectors();
  }

  lemma IndustryIn(k: nat)
    requires k < 5
    ensures Industries[k] in Industries
  {
  }

  lemma SectorsAreIndustries()
    ensures forall x :: x in SectorsOf(DemoRecords()) ==> x in Industries
  {
    var rs := DemoRecords();
    forall x | x in SectorsOf(rs)
      ensures x in Industries
    {
      var i :| 0 <= i < |rs| && SectorKey(rs[i].name) == x;
      assert rs[i].name == DemoName(i);
      DemoSector(i);
      IndustryIn(i % 5);
    }
  }

  lemma IndustriesAreSectors()
    ensures forall x :: x in Industries ==> x in SectorsOf(DemoRecords())
  {
    var rs := DemoRecords();
    forall x | x in Industries
      ensures x in SectorsOf(rs)
    {
      var k :| 0 <= k < 5 && Industries[k] == x;
      DemoSectorIn(k);
    }
  }

  /** The industry of record `k`, one of the first five, is a sector of the demo data. */
  lemma DemoSectorIn(k: nat)
    requires k < 5
    ensures Industries[k] in SectorsOf(DemoRecords())
  {
    var rs := DemoRecords();
    assert rs[k].name == DemoName(k);
    DemoSector(k);
    assert k % 5 == k;
  }

  /** `analyzeSectorDistribution` over the demo data: the five industries, twenty each. */
  lemma DemoDistribution()
    ensures SectorDistribution(DemoRecords()) == map k | k in Industries :: 20
  {
    DemoSectors();
    forall x | x in Industries
      ensures SectorCount(DemoRecords(), x) == 20
    {
      var k :| 0 <= k < 5 && Industries[k] == x;
      IndustryCount(k);
    }
  }

  /** Type and industry are picked with the same index, so records of one sector
      all have the same type. */
  lemma SectorDeterminesType(i: nat, j: nat)
    requires SectorKey(DemoName(i)) == SectorKey(DemoName(j))
    ensures Types[i % 5] == Types[j % 5]
  {
    DemoSector(i);
    DemoSector(j);
    IndustriesDistinct(i % 5, j % 5);
  }
}
