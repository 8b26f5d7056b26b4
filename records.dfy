/** Flat JSON objects as stored in the hotel system's collection documents, and the
    field tests the persistence engine applies to them (`record.get(field) == key`). */
module Records {

  /** A JSON scalar as it can appear as a field value of a stored object. */
  datatype Value = VStr(s: string) | VInt(i: int) | VReal(r: real) | VBool(b: bool) | VNull

  /** One stored object: field name to value. */
  type Record = map<string, Value>

  /** What reading one collection document yields: a JSON array of objects, or
      anything `_read_json_file` turns into `[]` (a missing file, text that does not
      decode as JSON, or a top-level value that is not an array). */
  datatype Document = JsonList(items: seq<Record>) | Malformed

  /** `record.get(field) == key` for a string `key`: the field is present and holds
      exactly that string. */
  predicate KeyIs(record: Record, field: string, key: string) {
    field in record && record[field] == VStr(key)
  }

  /** Some record of the collection has `key` in `field`. */
  predicate HasKey(records: seq<Record>, field: string, key: string) {
    exists i :: 0 <= i < |records| && KeyIs(records[i], field, key)
  }

  /** The position of the first record whose `field` is `key`. */
  function FirstIndex(records: seq<Record>, field: string, key: string): (i: nat)
    requires HasKey(records, field, key)
    ensures i < |records| && KeyIs(records[i], field, key)
    ensures forall j :: 0 <= j < i ==> !KeyIs(records[j], field, key)
  {
    if KeyIs(records[0], field, key) then 0
    else
      assert HasKey(records[1..], field, key) by {
        var k :| 0 <= k < |records| && KeyIs(records[k], field, key);
        assert records[1..][k - 1] == records[k];
      }
      1 + FirstIndex(records[1..], field, key)
  }

  /** `[r for r in records if r.get(field) != key]`. */
  function WithoutKey(records: seq<Record>, field: string, key: string): (r: seq<Record>)
    ensures |r| <= |records|
  {
    if records == [] then []
    else
      var rest := WithoutKey(records[..|records| - 1], field, key);
      var last := records[|records| - 1];
      if KeyIs(last, field, key) then rest else rest + [last]
  }

  /** `[r for r in records if r.get(field) == key]`, in stored order. */
  function Matching(records: seq<Record>, field: string, key: string): (r: seq<Record>)
    ensures |r| <= |records|
  {
    if records == [] then []
    else
      var rest := Matching(records[..|records| - 1], field, key);
      var last := records[|records| - 1];
      if KeyIs(last, field, key) then rest + [last] else rest
  }

  lemma {:induction false} WithoutKeyShrinks(records: seq<Record>, field: string, key: string)
    ensures |WithoutKey(records, field, key)| < |records| <==> HasKey(records, field, key)
    ensures !HasKey(records, field, key) ==> WithoutKey(records, field, key) == records
  {
    if records != [] {
      var init := records[..|records| - 1];
      WithoutKeyShrinks(init, field, key);
      if HasKey(init, field, key) {
        var k :| 0 <= k < |init| && KeyIs(init[k], field, key);
        assert records[k] == init[k];
      }
      if HasKey(records, field, key) && !KeyIs(records[|records| - 1], field, key) {
        var k :| 0 <= k < |records| && KeyIs(records[k], field, key);
        assert init[k] == records[k];
      }
      assert init + [records[|records| - 1]] == records;
    }
  }

  /** The survivors of a delete are exactly the records without the key. */
  lemma {:induction false} WithoutKeyMembers(records: seq<Record>, field: string, key: string)
    ensures forall r :: r in WithoutKey(records, field, key) <==> r in records && !KeyIs(r, field, key)
  {
    if records != [] {
      var init := records[..|records| - 1];
      WithoutKeyMembers(init, field, key);
      assert records == init + [records[|records| - 1]];
    }
  }

  /** Deleting from a concatenation deletes from each part and keeps the parts in
      order: the survivors keep their stored order. */
  lemma {:induction false} WithoutKeyAppend(a: seq<Record>, b: seq<Record>, field: string, key: string)
    ensures WithoutKey(a + b, field, key) == WithoutKey(a, field, key) + WithoutKey(b, field, key)
  {
    if b == [] {
      assert a + b == a;
    } else {
      var init := b[..|b| - 1];
      WithoutKeyAppend(a, init, field, key);
      assert (a + b)[..|a + b| - 1] == a + init;
    }
  }

  /** A record is kept by the filter exactly when it is stored with the key. */
  lemma {:induction false} MatchingMembers(records: seq<Record>, field: string, key: string)
    ensures forall r :: r in Matching(records, field, key) <==> r in records && KeyIs(r, field, key)
  {
    if records != [] {
      var init := records[..|records| - 1];
      MatchingMembers(init, field, key);
      assert records == init + [records[|records| - 1]];
    }
  }

  lemma MatchingSnoc(records: seq<Record>, last: Record, field: string, key: string)
    ensures Matching(records + [last], field, key)
            == Matching(records, field, key) + (if KeyIs(last, field, key) then [last] else [])
  {
    assert (records + [last])[..|records|] == records;
  }
}
