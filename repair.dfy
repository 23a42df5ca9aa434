/**
 * Record repair (fixBrokenCSVLine): a row the CSV reader could not parse
 * cleanly has every field with an odd number of '"' characters stripped of
 * all of them, and is then rejected if it has fewer than four fields.
 */
module Repair {
  import opened Wrappers

  const Quote: char := '"'

  /** The row length below which a repaired row is rejected, for movie and genre rows alike. */
  const MinFields: nat := 4

  /** strings.Count(s, "\""). */
  function CountQuotes(s: string): nat
  {
    if s == [] then 0 else (if s[0] == Quote then 1 else 0) + CountQuotes(s[1..])
  }

  /** strings.ReplaceAll(s, "\"", ""). */
  function StripQuotes(s: string): string
  {
    if s == [] then [] else (if s[0] == Quote then [] else [s[0]]) + StripQuotes(s[1..])
  }

  /** Stripping leaves no quote and removes nothing else. */
  lemma {:induction false} StripQuotesRemovesExactlyQuotes(s: string)
    ensures CountQuotes(StripQuotes(s)) == 0
    ensures |StripQuotes(s)| == |s| - CountQuotes(s)
  {
    if s != [] {
      StripQuotesRemovesExactlyQuotes(s[1..]);
      var head := if s[0] == Quote then [] else [s[0]];
      CountQuotesAppend(head, StripQuotes(s[1..]));
    }
  }

  /** Every character other than '"' occurs in the stripped string as often as before. */
  lemma {:induction false} StripQuotesKeepsOthers(s: string, c: char)
    requires c != Quote
    ensures multiset(StripQuotes(s))[c] == multiset(s)[c]
  {
    if s != [] {
      StripQuotesKeepsOthers(s[1..], c);
      assert s == [s[0]] + s[1..];
      var head := if s[0] == Quote then [] else [s[0]];
      assert StripQuotes(s) == head + StripQuotes(s[1..]);
      assert multiset(StripQuotes(s)) == multiset(head) + multiset(StripQuotes(s[1..]));
      assert multiset(s) == multiset([s[0]]) + multiset(s[1..]);
    }
  }

  lemma {:induction false} CountQuotesAppend(a: string, b: string)
    ensures CountQuotes(a + b) == CountQuotes(a) + CountQuotes(b)
  {
    if a != [] {
      assert (a + b)[1..] == a[1..] + b;
      CountQuotesAppend(a[1..], b);
    } else {
      assert a + b == b;
    }
  }

  /** Stripping keeps the order of the remaining characters: it works piece by piece. */
  lemma {:induction false} StripQuotesAppend(a: string, b: string)
    ensures StripQuotes(a + b) == StripQuotes(a) + StripQuotes(b)
  {
    if a != [] {
      assert (a + b)[1..] == a[1..] + b;
      StripQuotesAppend(a[1..], b);
    } else {
      assert a + b == b;
    }
  }

  /** A string none of whose characters is '"' has no quotes. */
  lemma {:induction false} CountQuotesNone(s: string)
    requires forall i :: 0 <= i < |s| ==> s[i] != Quote
    ensures CountQuotes(s) == 0
  {
    if s != [] {
      CountQuotesNone(s[1..]);
    }
  }

  /** A string without quotes is left alone by stripping. */
  lemma {:induction false} StripQuotesNoQuotes(s: string)
    requires CountQuotes(s) == 0
    ensures StripQuotes(s) == s
  {
    if s != [] {
      StripQuotesNoQuotes(s[1..]);
    }
  }

  /** The repair applied to one field. */
  function RepairField(f: string): string
  {
    if CountQuotes(f) % 2 != 0 then StripQuotes(f) else f
  }

  /** The repair applied to every field of a row. */
  function RepairRow(record: seq<string>): seq<string>
  {
    seq(|record|, i requires 0 <= i < |record| => RepairField(record[i]))
  }

  /** Every repaired field has an even number of quotes: balanced ones are kept, the others lose all. */
  lemma RepairRowFields(record: seq<string>)
    ensures |RepairRow(record)| == |record|
    ensures forall i :: 0 <= i < |record| && CountQuotes(record[i]) % 2 == 0 ==> RepairRow(record)[i] == record[i]
    ensures forall i :: 0 <= i < |record| && CountQuotes(record[i]) % 2 != 0 ==>
      RepairRow(record)[i] == StripQuotes(record[i]) && CountQuotes(RepairRow(record)[i]) == 0
  {
    forall i | 0 <= i < |record| && CountQuotes(record[i]) % 2 != 0
      ensures CountQuotes(RepairRow(record)[i]) == 0
    {
      StripQuotesRemovesExactlyQuotes(record[i]);
    }
  }

  /** fixBrokenCSVLine: the repaired row, or None (Go's nil) for a row that is too short. */
  function FixedRow(record: seq<string>): (r: Option<seq<string>>)
    ensures r.None? <==> |record| < MinFields
    ensures r.Some? ==> |r.value| == |record|
    ensures r.Some? ==> forall i :: 0 <= i < |record| && CountQuotes(record[i]) % 2 == 0 ==> r.value[i] == record[i]
    ensures r.Some? ==> forall i :: 0 <= i < |record| && CountQuotes(record[i]) % 2 != 0 ==>
      r.value[i] == StripQuotes(record[i]) && CountQuotes(r.value[i]) == 0
  {
    RepairRowFields(record);
    if |record| < MinFields then None else Some(RepairRow(record))
  }

  /**
   * fixBrokenCSVLine as the source runs it: the fields are rewritten in
   * place, and the result says whether the row is kept (false is Go's nil).
   * The rewrite happens even when the row is then rejected.
   */
  method FixBrokenCsvLine(record: array<string>) returns (kept: bool)
    modifies record
    ensures record[..] == RepairRow(old(record[..]))
    ensures FixedRow(old(record[..])) == if kept then Some(record[..]) else None
  {
    for i := 0 to record.Length
      invariant forall j :: 0 <= j < i ==> record[j] == RepairField(old(record[j]))
      invariant forall j :: i <= j < record.Length ==> record[j] == old(record[j])
    {
      var field := record[i];
      if CountQuotes(field) % 2 != 0 {
        record[i] := StripQuotes(field);
      }
    }
    kept := record.Length >= MinFields;
  }

  /** Repair is idempotent: a second pass over a repaired row changes nothing. */
  lemma RepairRowIdempotent(record: seq<string>)
    ensures RepairRow(RepairRow(record)) == RepairRow(record)
    ensures FixedRow(record).Some? ==> FixedRow(FixedRow(record).value) == FixedRow(record)
  {
    var once := RepairRow(record);
    RepairRowFields(record);
    forall i | 0 <= i < |once|
      ensures RepairField(once[i]) == once[i]
    {
      assert CountQuotes(once[i]) % 2 == 0;
    }
  }

  /** A row whose every field has balanced quotes comes back unchanged, if long enough. */
  lemma BalancedRowUnchanged(record: seq<string>)
    requires forall i :: 0 <= i < |record| ==> CountQuotes(record[i]) % 2 == 0
    ensures FixedRow(record) == if |record| < MinFields then None else Some(record)
  {
    if |record| >= MinFields {
      assert RepairRow(record) == record;
    }
  }

  /** A field with a single stray quote between quote-free text comes back without it. */
  lemma SingleQuoteStripped(left: string, right: string)
    requires CountQuotes(left) == 0 && CountQuotes(right) == 0
    ensures RepairField(left + [Quote] + right) == left + right
  {
    var whole := left + [Quote] + right;
    assert CountQuotes(whole) % 2 != 0 by {
      CountQuotesAppend(left + [Quote], right);
      CountQuotesAppend(left, [Quote]);
    }
    assert StripQuotes(whole) == left + right by {
      StripQuotesAppend(left + [Quote], right);
      StripQuotesAppend(left, [Quote]);
      StripQuotesNoQuotes(left);
      StripQuotesNoQuotes(right);
      assert StripQuotes([Quote]) == [];
      assert left + [] == left;
    }
  }
}
