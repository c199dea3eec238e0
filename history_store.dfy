/**
 * The clipboard history document of src/main.cpp, as rapidjson holds it in memory:
 *
 *   { "entries": { "<id>": "<content>", ... },
 *     "index":   { "<char>": { "<id>": [offset, ...], ... }, ... } }
 *
 * Member order matters twice: the last member of `entries` gives the next id,
 * and the members of an index bucket are visited in insertion order by the
 * search filter. The document is therefore modelled as maps plus the member
 * orders: `ids` for `entries` and `Bucket.ids` for each bucket.
 */
module HistoryStore {

  /** An entry id: the member name of an `entries` member, a decimal numeral. */
  type Id = string

  /** Entry content as a sequence of codepoints (UTF-8 decoding is not modelled). */
  type Content = seq<char>

  predicate Distinct<T(==)>(s: seq<T>)
  {
    forall j, k :: 0 <= j < k < |s| ==> s[j] != s[k]
  }

  // ---------------------------------------------------------------------------
  // Decimal ids: fmt::to_string and std::stoi

  predicate IsDigit(c: char) { '0' <= c <= '9' }

  predicate AllDigits(s: string) { forall k :: 0 <= k < |s| ==> IsDigit(s[k]) }

  /** A numeral as fmt::to_string prints a non-negative number: digits only, no leading zero. */
  predicate Canonical(s: string) { |s| > 0 && AllDigits(s) && (s[0] == '0' ==> |s| == 1) }

  function DigitChar(d: nat): char
    requires d < 10
  {
    ('0' as int + d) as char
  }

  /** fmt::to_string of a non-negative integer. */
  function Decimal(n: nat): string
  {
    if n < 10 then [DigitChar(n)] else Decimal(n / 10) + [DigitChar(n % 10)]
  }

  function DigitsValue(s: string): nat
    requires AllDigits(s)
  {
    if s == [] then 0 else DigitsValue(s[..|s| - 1]) * 10 + (s[|s| - 1] as int - '0' as int)
  }

  /** std::stoi applied to a canonical numeral. */
  function Stoi(s: string): nat
    requires Canonical(s)
  {
    DigitsValue(s)
  }

  /** fmt::to_string yields canonical numerals, and std::stoi reads them back. */
  lemma {:induction false} DecimalRoundTrip(n: nat)
    ensures Canonical(Decimal(n))
    ensures Stoi(Decimal(n)) == n
    ensures Decimal(n)[0] == '0' <==> n == 0
  {
    var r := Decimal(n);
    if n < 10 {
      assert r[..0] == [];
      assert DigitsValue(r) == DigitsValue([]) * 10 + n;
    } else {
      DecimalRoundTrip(n / 10);
      var p := Decimal(n / 10);
      assert r == p + [DigitChar(n % 10)];
      assert r[..|r| - 1] == p;
      assert r[0] == p[0];
      assert DigitsValue(r) == DigitsValue(p) * 10 + n % 10;
    }
  }

  /** The id order the store keeps: canonical numerals whose values strictly increase. */
  ghost predicate IdsAscending(ids: seq<Id>)
  {
    && (forall k :: 0 <= k < |ids| ==> Canonical(ids[k]))
    && (forall j, k :: 0 <= j < k < |ids| ==> Stoi(ids[j]) < Stoi(ids[k]))
  }

  lemma AscendingDistinct(ids: seq<Id>)
    requires IdsAscending(ids)
    ensures Distinct(ids)
  {
  }

  /** The id CopyEntry gives a new entry: "0" when `entries` is empty, else the last member's id plus one. */
  function NextId(ids: seq<Id>): Id
    requires ids != [] ==> Canonical(ids[|ids| - 1])
  {
    if ids == [] then "0" else Decimal(Stoi(ids[|ids| - 1]) + 1)
  }

  /** A new id is larger than every id present, so it is fresh and keeps the order. */
  lemma NextIdFresh(ids: seq<Id>)
    requires IdsAscending(ids)
    ensures IdsAscending(ids + [NextId(ids)])
    ensures NextId(ids) !in ids
  {
    var id := NextId(ids);
    if ids == [] {
      DecimalRoundTrip(0);
      assert id == Decimal(0);
    } else {
      DecimalRoundTrip(Stoi(ids[|ids| - 1]) + 1);
      assert forall j :: 0 <= j < |ids| ==> Stoi(ids[j]) < Stoi(id) by {
        forall j | 0 <= j < |ids| ensures Stoi(ids[j]) < Stoi(id) {
          if j < |ids| - 1 {
            assert Stoi(ids[j]) < Stoi(ids[|ids| - 1]);
          }
        }
      }
    }
    var ids' := ids + [id];
    assert forall k :: 0 <= k < |ids| ==> ids'[k] == ids[k];
  }

  // ---------------------------------------------------------------------------
  // The document

  /** One index bucket `index[c]`: its member names in order and each member's offset list. */
  datatype Bucket = Bucket(ids: seq<Id>, offsets: map<Id, seq<nat>>)

  datatype Document = Document(ids: seq<Id>, entries: map<Id, Content>, index: map<char, Bucket>)

  /** The document CreateInitialCache writes when the store file is absent: `{"entries": {}, "index": {}}`. */
  function EmptyDocument(): Document
  {
    Document([], map[], map[])
  }

  /** The list of codepoint offsets at which c occurs in s, in the order the indexing loop meets them. */
  function Occurrences(s: Content, c: char): seq<nat>
  {
    if s == [] then []
    else Occurrences(s[..|s| - 1], c) + (if s[|s| - 1] == c then [|s| - 1] else [])
  }

  /** The offsets listed are positions of c in s, in strictly ascending order. */
  lemma {:induction false} OccurrencesSound(s: Content, c: char)
    ensures forall j :: 0 <= j < |Occurrences(s, c)| ==> Occurrences(s, c)[j] < |s| && s[Occurrences(s, c)[j]] == c
    ensures forall j, k :: 0 <= j < k < |Occurrences(s, c)| ==> Occurrences(s, c)[j] < Occurrences(s, c)[k]
  {
    if s != [] {
      var p := s[..|s| - 1];
      OccurrencesSound(p, c);
      var rp := Occurrences(p, c);
      var r := Occurrences(s, c);
      assert r == rp + (if s[|s| - 1] == c then [|s| - 1] else []);
      forall j | 0 <= j < |r|
        ensures r[j] < |s| && s[r[j]] == c
      {
        if j < |rp| {
          assert r[j] == rp[j] && rp[j] < |p|;
          assert s[rp[j]] == p[rp[j]];
        } else {
          assert r[j] == |s| - 1;
        }
      }
      forall j, k | 0 <= j < k < |r|
        ensures r[j] < r[k]
      {
        assert r[j] == rp[j] && rp[j] < |p|;
        if k < |rp| {
          assert r[k] == rp[k];
        } else {
          assert r[k] == |s| - 1;
        }
      }
    }
  }

  lemma {:induction false} OccurrencesComplete(s: Content, c: char)
    ensures forall k :: 0 <= k < |s| && s[k] == c ==> k in Occurrences(s, c)
  {
    if s != [] {
      var p := s[..|s| - 1];
      OccurrencesComplete(p, c);
      var rp := Occurrences(p, c);
      var r := Occurrences(s, c);
      assert r == rp + (if s[|s| - 1] == c then [|s| - 1] else []);
      forall k | 0 <= k < |s| && s[k] == c
        ensures k in r
      {
        if k < |p| {
          assert p[k] == s[k];
          assert k in rp;
        } else {
          assert r[|r| - 1] == k;
        }
      }
    }
  }

  /** The offsets listed are exactly the positions of c in s, each once, ascending. */
  lemma OccurrencesSpec(s: Content, c: char)
    ensures forall j :: 0 <= j < |Occurrences(s, c)| ==> Occurrences(s, c)[j] < |s| && s[Occurrences(s, c)[j]] == c
    ensures forall j, k :: 0 <= j < k < |Occurrences(s, c)| ==> Occurrences(s, c)[j] < Occurrences(s, c)[k]
    ensures forall k :: 0 <= k < |s| && s[k] == c ==> k in Occurrences(s, c)
  {
    OccurrencesSound(s, c);
    OccurrencesComplete(s, c);
  }

  ghost predicate BucketWellFormed(b: Bucket)
  {
    Distinct(b.ids) && forall id :: id in b.offsets <==> id in b.ids
  }

  predicate Indexed(d: Document, c: char, id: Id)
  {
    c in d.index && id in d.index[c].offsets
  }

  /** Every recorded list belongs to a live entry that contains c, and lists exactly c's offsets there. */
  ghost predicate IndexSound(d: Document)
  {
    forall c, id :: Indexed(d, c, id) ==>
      id in d.entries && c in d.entries[id] && d.index[c].offsets[id] == Occurrences(d.entries[id], c)
  }

  /** Every character of every entry is recorded under that entry's id. */
  ghost predicate IndexComplete(d: Document)
  {
    forall id, k :: id in d.entries && 0 <= k < |d.entries[id]| ==> Indexed(d, d.entries[id][k], id)
  }

  /** The invariant of the store document. */
  ghost predicate DocValid(d: Document)
  {
    && IdsAscending(d.ids)
    && (forall id :: id in d.entries <==> id in d.ids)
    && (forall c :: c in d.index ==> BucketWellFormed(d.index[c]))
    && IndexSound(d)
    && IndexComplete(d)
  }

  lemma EmptyDocumentValid()
    ensures DocValid(EmptyDocument())
  {
  }

  /** Index offsets point at real occurrences of their character, in strictly ascending order. */
  lemma IndexOffsetsAreOccurrences(d: Document, c: char, id: Id)
    requires DocValid(d) && Indexed(d, c, id)
    ensures var offs := d.index[c].offsets[id];
      && |offs| > 0
      && (forall j :: 0 <= j < |offs| ==> offs[j] < |d.entries[id]| && d.entries[id][offs[j]] == c)
      && (forall j, k :: 0 <= j < k < |offs| ==> offs[j] < offs[k])
  {
    var s := d.entries[id];
    var k :| 0 <= k < |s| && s[k] == c;
    OccurrencesSpec(s, c);
  }

  // ---------------------------------------------------------------------------
  // CopyEntry: append one entry and index it

  /** The content CopyEntry stores, `event.content.c_str()`: the prefix before the first NUL. */
  function CStr(s: Content): (r: Content)
    ensures r <= s && '\0' !in r
    ensures |r| < |s| ==> s[|r|] == '\0'
  {
    if s == [] || s[0] == '\0' then [] else [s[0]] + CStr(s[1..])
  }

  /** Content without a NUL is stored whole. */
  lemma CStrWhole(s: Content)
    requires '\0' !in s
    ensures CStr(s) == s
  {
  }

  /** One iteration of CopyEntry's codepoint loop: push offset k of character c onto entry id's list. */
  function AddOffset(index: map<char, Bucket>, c: char, id: Id, k: nat): map<char, Bucket>
  {
    if c in index then
      var b := if id in index[c].offsets then index[c]
               else Bucket(index[c].ids + [id], index[c].offsets[id := []]);
      index[c := Bucket(b.ids, b.offsets[id := b.offsets[id] + [k]])]
    else
      index[c := Bucket([id], map[id := [k]])]
  }

  /** CopyEntry's codepoint loop run over all of s. */
  function IndexAdd(index: map<char, Bucket>, id: Id, s: Content): map<char, Bucket>
  {
    if s == [] then index else AddOffset(IndexAdd(index, id, s[..|s| - 1]), s[|s| - 1], id, |s| - 1)
  }

  function BucketOf(index: map<char, Bucket>, c: char): Bucket
  {
    if c in index then index[c] else Bucket([], map[])
  }

  lemma OccurrencesAbsent(s: Content, c: char)
    requires c !in s
    ensures Occurrences(s, c) == []
  {
    OccurrencesSpec(s, c);
  }

  lemma {:induction false} IndexAddKeys(index: map<char, Bucket>, id: Id, s: Content)
    ensures forall c :: c in IndexAdd(index, id, s) <==> c in index || c in s
  {
    if s != [] {
      var p, x := s[..|s| - 1], s[|s| - 1];
      IndexAddKeys(index, id, p);
      assert s == p + [x];
    }
  }

  /** The bucket of one character after indexing s under a fresh id. */
  lemma {:induction false} IndexAddBucket(index: map<char, Bucket>, id: Id, s: Content, c: char)
    requires forall c :: c in index ==> id !in index[c].offsets
    ensures c in s ==> (c in IndexAdd(index, id, s) &&
      IndexAdd(index, id, s)[c] == Bucket(BucketOf(index, c).ids + [id], BucketOf(index, c).offsets[id := Occurrences(s, c)]))
    ensures c in index && c !in s ==> c in IndexAdd(index, id, s) && IndexAdd(index, id, s)[c] == index[c]
  {
    IndexAddKeys(index, id, s);
    if s != [] {
      var p, x := s[..|s| - 1], s[|s| - 1];
      IndexAddBucket(index, id, p, c);
      IndexAddKeys(index, id, p);
      assert s == p + [x];
      var prev := IndexAdd(index, id, p);
      assert IndexAdd(index, id, s) == AddOffset(prev, x, id, |p|);
      var b := BucketOf(index, c);
      if c != x {
        assert c in s ==> c in p;
        assert Occurrences(s, c) == Occurrences(p, c) + [];
        assert c in prev ==> IndexAdd(index, id, s)[c] == prev[c];
        if c in s {
          assert c in p;
          assert c in prev;
          assert prev[c] == Bucket(b.ids + [id], b.offsets[id := Occurrences(p, c)]);
          assert Occurrences(s, c) == Occurrences(p, c);
        }
      } else if c in p {
        assert Occurrences(s, c) == Occurrences(p, c) + [|p|];
        assert prev[c].offsets[id] == Occurrences(p, c);
        assert b.offsets[id := Occurrences(p, c)][id := Occurrences(s, c)] == b.offsets[id := Occurrences(s, c)];
      } else {
        OccurrencesAbsent(p, c);
        assert Occurrences(s, c) == [|p|];
        if c in index {
          assert prev[c] == index[c];
          assert index[c].offsets[id := []][id := [] + [|p|]] == index[c].offsets[id := [|p|]];
        } else {
          assert c !in prev;
          assert b.offsets[id := [|p|]] == map[id := [|p|]];
        }
      }
    }
  }

  /** Indexing s under a fresh id: each character of s gets the id appended to its bucket with
      exactly its offsets in s; buckets of other characters stay as they were. */
  lemma IndexAddSpec(index: map<char, Bucket>, id: Id, s: Content)
    requires forall c :: c in index ==> id !in index[c].offsets
    ensures forall c :: c in IndexAdd(index, id, s) <==> c in index || c in s
    ensures forall c :: c in s ==>
      IndexAdd(index, id, s)[c] == Bucket(BucketOf(index, c).ids + [id], BucketOf(index, c).offsets[id := Occurrences(s, c)])
    ensures forall c :: c in index && c !in s ==> IndexAdd(index, id, s)[c] == index[c]
  {
    IndexAddKeys(index, id, s);
    forall c ensures c in s ==> IndexAdd(index, id, s)[c] == Bucket(BucketOf(index, c).ids + [id], BucketOf(index, c).offsets[id := Occurrences(s, c)])
    {
      IndexAddBucket(index, id, s, c);
    }
    forall c ensures c in index && c !in s ==> IndexAdd(index, id, s)[c] == index[c]
    {
      IndexAddBucket(index, id, s, c);
    }
  }

  /** CopyEntry's effect on the document: the new id and content are appended to `entries`
      and the content is indexed under the new id. */
  function AppendDoc(d: Document, content: Content): Document
    requires d.ids != [] ==> Canonical(d.ids[|d.ids| - 1])
  {
    var id := NextId(d.ids);
    var s := CStr(content);
    Document(d.ids + [id], d.entries[id := s], IndexAdd(d.index, id, s))
  }

  lemma DistinctAppend(s: seq<Id>, x: Id)
    requires Distinct(s) && x !in s
    ensures Distinct(s + [x])
  {
    var t := s + [x];
    forall j, k | 0 <= j < k < |t| ensures t[j] != t[k] {
      if k == |s| {
        assert t[j] == s[j];
      } else {
        assert t[j] == s[j] && t[k] == s[k];
      }
    }
  }

  /** After an append every bucket is still well formed and every recorded list is still right. */
  lemma AppendKeepsSound(d: Document, content: Content)
    requires DocValid(d)
    ensures var d' := AppendDoc(d, content);
      (forall c :: c in d'.index ==> BucketWellFormed(d'.index[c])) && IndexSound(d')
  {
    var id := NextId(d.ids);
    var s := CStr(content);
    var d' := AppendDoc(d, content);
    NextIdFresh(d.ids);
    assert id !in d.entries;
    IndexAddSpec(d.index, id, s);
    forall c | c in d'.index ensures BucketWellFormed(d'.index[c]) {
      if c in s {
        var b := BucketOf(d.index, c);
        assert id !in b.ids;
        DistinctAppend(b.ids, id);
      }
    }
    forall c, x | Indexed(d', c, x)
      ensures x in d'.entries && c in d'.entries[x] && d'.index[c].offsets[x] == Occurrences(d'.entries[x], c)
    {
      if x != id {
        assert Indexed(d, c, x);
      }
    }
  }

  /** After an append every character of every entry is still recorded. */
  lemma AppendKeepsComplete(d: Document, content: Content)
    requires DocValid(d)
    ensures IndexComplete(AppendDoc(d, content))
  {
    var id := NextId(d.ids);
    var s := CStr(content);
    var d' := AppendDoc(d, content);
    NextIdFresh(d.ids);
    IndexAddSpec(d.index, id, s);
    forall x, k | x in d'.entries && 0 <= k < |d'.entries[x]|
      ensures Indexed(d', d'.entries[x][k], x)
    {
      var c := d'.entries[x][k];
      if x != id {
        assert Indexed(d, c, x);
      } else {
        assert c in s;
      }
    }
  }

  /** Appending keeps the document invariant. */
  lemma AppendPreservesValid(d: Document, content: Content)
    requires DocValid(d)
    ensures DocValid(AppendDoc(d, content))
  {
    var id := NextId(d.ids);
    var d' := AppendDoc(d, content);
    NextIdFresh(d.ids);
    forall x ensures x in d'.entries <==> x in d'.ids {
      assert x in d'.ids <==> x in d.ids || x == id;
    }
    AppendKeepsSound(d, content);
    AppendKeepsComplete(d, content);
  }

  /** What an append does to the index beyond the invariant: the new id goes to the end of
      each of its characters' buckets, and no other id's offset list changes. */
  lemma AppendIndexEffect(d: Document, content: Content)
    requires DocValid(d)
    ensures var id := NextId(d.ids);
      var d' := AppendDoc(d, content);
      && id !in d.entries
      && (forall c :: c in CStr(content) ==> c in d'.index && d'.index[c].ids == BucketOf(d.index, c).ids + [id])
      && (forall c, x :: x != id && Indexed(d, c, x) ==>
            Indexed(d', c, x) && d'.index[c].offsets[x] == d.index[c].offsets[x])
      && (forall c, x :: x != id && Indexed(d', c, x) ==> Indexed(d, c, x))
  {
    var id := NextId(d.ids);
    var s := CStr(content);
    var d' := AppendDoc(d, content);
    NextIdFresh(d.ids);
    assert forall c :: c in d.index ==> id !in d.index[c].offsets;
    IndexAddSpec(d.index, id, s);
    forall c | c in s
      ensures c in d'.index && d'.index[c].ids == BucketOf(d.index, c).ids + [id]
    {
    }
    forall c, x | x != id && Indexed(d, c, x)
      ensures Indexed(d', c, x) && d'.index[c].offsets[x] == d.index[c].offsets[x]
    {
      if c in s {
        assert d'.index[c].offsets == d.index[c].offsets[id := Occurrences(s, c)];
      } else {
        assert d'.index[c] == d.index[c];
      }
    }
    forall c, x | x != id && Indexed(d', c, x)
      ensures Indexed(d, c, x)
    {
      if c in s {
        assert d'.index[c].offsets == BucketOf(d.index, c).offsets[id := Occurrences(s, c)];
      } else {
        assert d'.index[c] == d.index[c];
      }
    }
  }

  // ---------------------------------------------------------------------------
  // Removing one entry (the delete branch of search_algo)

  /** rapidjson's EraseMember by name: the first member with that name goes, the order of the rest stays. */
  function RemoveFirst<T(==)>(s: seq<T>, x: T): seq<T>
  {
    if s == [] then [] else if s[0] == x then s[1..] else [s[0]] + RemoveFirst(s[1..], x)
  }

  /** std::vector::erase at position k. */
  function EraseAt<T>(s: seq<T>, k: nat): (r: seq<T>)
    requires k < |s|
    ensures |r| == |s| - 1
    ensures forall j :: 0 <= j < k ==> r[j] == s[j]
    ensures forall j :: k <= j < |r| ==> r[j] == s[j + 1]
  {
    s[..k] + s[k + 1..]
  }

  /** Erasing position k of a repetition-free sequence leaves no copy of the element erased. */
  lemma EraseAtDrops<T>(s: seq<T>, k: nat)
    requires Distinct(s) && k < |s|
    ensures s[k] !in EraseAt(s, k)
  {
    var r := EraseAt(s, k);
    forall j | 0 <= j < |r|
      ensures r[j] != s[k]
    {
      if j < k {
        assert r[j] == s[j];
      } else {
        assert r[j] == s[j + 1];
      }
    }
  }

  /** Erasing the first occurrence of an element that sits at position k of a repetition-free sequence is erasing position k. */
  lemma {:induction false} RemoveFirstAt<T>(s: seq<T>, k: nat)
    requires Distinct(s) && k < |s|
    ensures RemoveFirst(s, s[k]) == EraseAt(s, k)
  {
    if k > 0 {
      assert s[0] != s[k];
      RemoveFirstAt(s[1..], k - 1);
      assert s[1..][k - 1] == s[k];
      assert EraseAt(s, k) == [s[0]] + EraseAt(s[1..], k - 1);
    }
  }

  lemma {:induction false} RemoveFirstAbsent<T>(s: seq<T>, x: T)
    requires x !in s
    ensures RemoveFirst(s, x) == s
  {
    if s != [] {
      RemoveFirstAbsent(s[1..], x);
    }
  }

  /** What erasing the first x keeps: one element fewer when x is present, and every other element. */
  lemma {:induction false} RemoveFirstMembers<T>(s: seq<T>, x: T)
    ensures forall y :: y in RemoveFirst(s, x) ==> y in s
    ensures forall y :: y in s && y != x ==> y in RemoveFirst(s, x)
    ensures x in s ==> |RemoveFirst(s, x)| == |s| - 1
    ensures x !in s ==> RemoveFirst(s, x) == s
  {
    if s != [] {
      RemoveFirstMembers(s[1..], x);
      if s[0] != x {
        assert x in s ==> x in s[1..];
      }
    }
  }

  lemma RemoveFirstDistinct<T>(s: seq<T>, x: T)
    requires Distinct(s)
    ensures Distinct(RemoveFirst(s, x))
    ensures forall y :: y in RemoveFirst(s, x) <==> y in s && y != x
  {
    if x in s {
      var k :| 0 <= k < |s| && s[k] == x;
      RemoveFirstAt(s, k);
      var r := EraseAt(s, k);
      forall y ensures y in r <==> y in s && y != x {
        if y in s && y != x {
          var j :| 0 <= j < |s| && s[j] == y;
          if j < k { assert r[j] == y; } else { assert r[j - 1] == y; }
        }
      }
    } else {
      RemoveFirstAbsent(s, x);
    }
  }

  /** Erasing one position keeps the ids ascending. */
  lemma EraseAscending(ids: seq<Id>, k: nat)
    requires IdsAscending(ids) && k < |ids|
    ensures IdsAscending(EraseAt(ids, k))
  {
    var r := EraseAt(ids, k);
    forall j | 0 <= j < |r|
      ensures Canonical(r[j])
    {
      if j < k { assert r[j] == ids[j]; } else { assert r[j] == ids[j + 1]; }
    }
    forall i, j | 0 <= i < j < |r|
      ensures Stoi(r[i]) < Stoi(r[j])
    {
      var i' := if i < k then i else i + 1;
      var j' := if j < k then j else j + 1;
      assert r[i] == ids[i'] && r[j] == ids[j'] && i' < j';
    }
  }

  lemma RemoveFirstAscending(ids: seq<Id>, x: Id)
    requires IdsAscending(ids)
    ensures IdsAscending(RemoveFirst(ids, x))
  {
    if x in ids {
      var k :| 0 <= k < |ids| && ids[k] == x;
      AscendingDistinct(ids);
      RemoveFirstAt(ids, k);
      EraseAscending(ids, k);
    } else {
      RemoveFirstAbsent(ids, x);
    }
  }

  function BucketWithout(b: Bucket, id: Id): Bucket
  {
    Bucket(RemoveFirst(b.ids, id), b.offsets - {id})
  }

  /** The delete branch's effect on the document: the id leaves `entries` and every index
      bucket; buckets that become empty stay in place. */
  function RemoveDoc(d: Document, id: Id): Document
  {
    Document(RemoveFirst(d.ids, id), d.entries - {id}, map c | c in d.index :: BucketWithout(d.index[c], id))
  }

  /** Removing keeps the document invariant, and no bucket mentions the removed id afterwards. */
  lemma RemovePreservesValid(d: Document, id: Id)
    requires DocValid(d)
    ensures DocValid(RemoveDoc(d, id))
    ensures forall c :: c in RemoveDoc(d, id).index ==> id !in RemoveDoc(d, id).index[c].offsets
  {
    var d' := RemoveDoc(d, id);
    RemoveFirstAscending(d.ids, id);
    AscendingDistinct(d.ids);
    RemoveFirstDistinct(d.ids, id);
    forall c | c in d'.index ensures BucketWellFormed(d'.index[c]) {
      RemoveFirstDistinct(d.index[c].ids, id);
    }
    forall c, x | Indexed(d', c, x)
      ensures x in d'.entries && c in d'.entries[x] && d'.index[c].offsets[x] == Occurrences(d'.entries[x], c)
    {
      assert Indexed(d, c, x);
    }
    forall x, k | x in d'.entries && 0 <= k < |d'.entries[x]|
      ensures Indexed(d', d'.entries[x][k], x)
    {
      assert Indexed(d, d.entries[x][k], x);
    }
  }

  /** Deleting the id at position k of the member order removes exactly position k from the
      member order and from the snapshot of values. */
  lemma ValuesAfterRemove(d: Document, k: nat)
    requires DocValid(d) && k < |d.ids|
    ensures RemoveDoc(d, d.ids[k]).ids == EraseAt(d.ids, k)
    ensures Values(RemoveDoc(d, d.ids[k])) == EraseAt(Values(d), k)
  {
    AscendingDistinct(d.ids);
    RemoveFirstAt(d.ids, k);
    RemovePreservesValid(d, d.ids[k]);
    var d' := RemoveDoc(d, d.ids[k]);
    var a, b := Values(d'), EraseAt(Values(d), k);
    forall j | 0 <= j < |a| ensures a[j] == b[j] {
      assert d'.ids[j] in d'.entries;
      if j < k {
        assert d'.ids[j] == d.ids[j];
      } else {
        assert d'.ids[j] == d.ids[j + 1];
      }
    }
  }

  // ---------------------------------------------------------------------------
  // The search filter's view of the document

  /** The members of a bucket, in order, whose offset list contains offset i. */
  function Hits(ids: seq<Id>, offsets: map<Id, seq<nat>>, i: nat): seq<Id>
  {
    if ids == [] then []
    else
      var id := ids[|ids| - 1];
      Hits(ids[..|ids| - 1], offsets, i) + (if id in offsets && i in offsets[id] then [id] else [])
  }

  /** `doc["entries"][id]` for each id, in order. */
  function Lookup(entries: map<Id, Content>, ids: seq<Id>): (r: seq<Content>)
    ensures |r| == |ids|
    ensures forall k :: 0 <= k < |ids| && ids[k] in entries ==> r[k] == entries[ids[k]]
  {
    if ids == [] then []
    else
      var id := ids[|ids| - 1];
      Lookup(entries, ids[..|ids| - 1]) + [if id in entries then entries[id] else []]
  }

  lemma LookupSnoc(entries: map<Id, Content>, ids: seq<Id>, id: Id)
    ensures Lookup(entries, ids + [id]) == Lookup(entries, ids) + [if id in entries then entries[id] else []]
  {
    assert (ids + [id])[..|ids|] == ids;
  }

  /** One more bucket member visited by the filter: its entry is added exactly when its offsets contain i. */
  lemma LookupHitsStep(entries: map<Id, Content>, ids: seq<Id>, offsets: map<Id, seq<nat>>, i: nat, k: nat)
    requires k < |ids|
    ensures Lookup(entries, Hits(ids[..k + 1], offsets, i)) ==
      Lookup(entries, Hits(ids[..k], offsets, i)) +
      (if ids[k] in offsets && i in offsets[ids[k]] then [if ids[k] in entries then entries[ids[k]] else []] else [])
  {
    var prefix := ids[..k + 1];
    assert prefix[..k] == ids[..k] && prefix[k] == ids[k];
    var hits := Hits(ids[..k], offsets, i);
    LookupSnoc(entries, hits, ids[k]);
    assert hits + [] == hits;
  }

  /** All contents in document order: the `entries_value` snapshot search_algo starts from. */
  function Values(d: Document): seq<Content>
  {
    Lookup(d.entries, d.ids)
  }

  /** The ids the filter reports when character c was typed with offset counter i. */
  function HitIds(d: Document, c: char, i: nat): seq<Id>
  {
    if c in d.index then Hits(d.index[c].ids, d.index[c].offsets, i) else []
  }

  /** The new `results` after typing c with offset counter i. */
  function FilterDoc(d: Document, c: char, i: nat): seq<Content>
  {
    Lookup(d.entries, HitIds(d, c, i))
  }

  lemma {:induction false} HitsMembers(ids: seq<Id>, offsets: map<Id, seq<nat>>, i: nat)
    ensures forall y :: y in Hits(ids, offsets, i) <==> y in ids && y in offsets && i in offsets[y]
    ensures Distinct(ids) ==> Distinct(Hits(ids, offsets, i))
  {
    if ids != [] {
      var p, x := ids[..|ids| - 1], ids[|ids| - 1];
      HitsMembers(p, offsets, i);
      assert ids == p + [x];
      if Distinct(ids) {
        assert Distinct(p) by {
          assert forall j :: 0 <= j < |p| ==> p[j] == ids[j];
        }
        assert x !in p;
        if x in offsets && i in offsets[x] {
          DistinctAppend(Hits(p, offsets, i), x);
        }
      }
    }
  }

  /** A repetition-free sequence whose elements all occur in b is no longer than b. */
  lemma {:induction false} DistinctSubsetLength<T>(a: seq<T>, b: seq<T>)
    requires Distinct(a) && forall y :: y in a ==> y in b
    ensures |a| <= |b|
  {
    if a != [] {
      var b' := RemoveFirst(b, a[0]);
      RemoveFirstMembers(b, a[0]);
      forall y | y in a[1..] ensures y in b' {
        assert y != a[0];
      }
      DistinctSubsetLength(a[1..], b');
    }
  }

  /** The filter's last-character rule: an entry is reported exactly when its content has the
      typed character at offset i, it is reported once, and the report lists its content. */
  lemma FilterMeaning(d: Document, c: char, i: nat)
    requires DocValid(d)
    ensures forall id :: id in HitIds(d, c, i) <==> id in d.entries && i < |d.entries[id]| && d.entries[id][i] == c
    ensures Distinct(HitIds(d, c, i))
    ensures |HitIds(d, c, i)| <= |d.ids|
    ensures |FilterDoc(d, c, i)| == |HitIds(d, c, i)|
    ensures forall k :: 0 <= k < |HitIds(d, c, i)| ==> FilterDoc(d, c, i)[k] == d.entries[HitIds(d, c, i)[k]]
  {
    var h := HitIds(d, c, i);
    if c in d.index {
      HitsMembers(d.index[c].ids, d.index[c].offsets, i);
    }
    forall id ensures id in h <==> id in d.entries && i < |d.entries[id]| && d.entries[id][i] == c {
      if id in d.entries {
        OccurrencesSpec(d.entries[id], c);
        if i < |d.entries[id]| && d.entries[id][i] == c {
          assert Indexed(d, d.entries[id][i], id);
        }
      }
      if id in h {
        assert Indexed(d, c, id);
      }
    }
    DistinctSubsetLength(h, d.ids);
  }

  /** The ids are the entries, so the snapshot of values has one content per id. */
  lemma ValuesAt(d: Document, k: nat)
    requires DocValid(d) && k < |d.ids|
    ensures |Values(d)| == |d.ids| && Values(d)[k] == d.entries[d.ids[k]]
  {
  }

  // ---------------------------------------------------------------------------
  // Properties of sequences of operations

  /** The documents that successive CopyEntry calls produce. */
  ghost function AppendAll(d: Document, contents: seq<Content>): (r: Document)
    requires DocValid(d)
    ensures DocValid(r)
    decreases |contents|
  {
    if contents == [] then d
    else
      AppendPreservesValid(d, contents[0]);
      AppendAll(AppendDoc(d, contents[0]), contents[1..])
  }

  /** The numerals "0" .. "m-1" in order. */
  function Numerals(m: nat): (r: seq<Id>)
    ensures |r| == m && forall k :: 0 <= k < m ==> r[k] == Decimal(k)
  {
    if m == 0 then [] else Numerals(m - 1) + [Decimal(m - 1)]
  }

  lemma NumeralsAscending(m: nat)
    ensures IdsAscending(Numerals(m))
    ensures forall k :: 0 <= k < m ==> Stoi(Numerals(m)[k]) == k
  {
    forall k | 0 <= k < m ensures Canonical(Numerals(m)[k]) && Stoi(Numerals(m)[k]) == k {
      DecimalRoundTrip(k);
    }
  }

  /** After the numerals "0" .. "m-1", the next id is the numeral of m. */
  lemma NextNumeral(m: nat)
    ensures m > 0 ==> Canonical(Numerals(m)[m - 1])
    ensures NextId(Numerals(m)) == Decimal(m)
  {
    if m == 0 {
      assert Decimal(0) == "0";
    } else {
      DecimalRoundTrip(m - 1);
    }
  }

  /** From an empty store, appends hand out the ids "0", "1", ... in order. */
  lemma {:induction false} SequentialIds(d: Document, contents: seq<Content>, m: nat)
    requires DocValid(d) && d.ids == Numerals(m)
    ensures AppendAll(d, contents).ids == Numerals(m + |contents|)
    decreases |contents|
  {
    if contents != [] {
      AppendPreservesValid(d, contents[0]);
      NextNumeral(m);
      var d' := AppendDoc(d, contents[0]);
      assert d'.ids == Numerals(m + 1);
      SequentialIds(d', contents[1..], m + 1);
    }
  }

  /** N appends to a fresh store yield exactly the ids "0" .. "N-1", in that order. */
  lemma IdsFromEmpty(contents: seq<Content>)
    ensures DocValid(EmptyDocument())
    ensures AppendAll(EmptyDocument(), contents).ids == Numerals(|contents|)
    ensures forall k :: 0 <= k < |contents| ==> Stoi(AppendAll(EmptyDocument(), contents).ids[k]) == k
  {
    SequentialIds(EmptyDocument(), contents, 0);
    NumeralsAscending(|contents|);
  }

  /** Ids are reused: deleting the newest entry makes the next append hand out its id again. */
  lemma NewestIdReused(d: Document, content: Content)
    requires DocValid(d)
    ensures var id := NextId(d.ids);
      var d' := RemoveDoc(AppendDoc(d, content), id);
      DocValid(d') && d'.ids == d.ids && NextId(d'.ids) == id
  {
    var id := NextId(d.ids);
    AppendPreservesValid(d, content);
    RemovePreservesValid(AppendDoc(d, content), id);
    NextIdFresh(d.ids);
    AscendingDistinct(d.ids + [id]);
    RemoveFirstAt(d.ids + [id], |d.ids|);
    assert EraseAt(d.ids + [id], |d.ids|) == d.ids;
  }

  lemma HelloOccurrences()
    ensures Occurrences("hello", 'h') == [0]
    ensures Occurrences("hello", 'l') == [2, 3]
    ensures Occurrences("hello", 'o') == [4]
  {
    var s: Content := "hello";
    assert s[..4] == "hell" && s[..3] == "hel" && s[..2] == "he" && s[..1] == "h";
    assert s[..4][..3] == s[..3] && s[..3][..2] == s[..2] && s[..2][..1] == s[..1] && s[..1][..0] == [];
    assert Occurrences(s[..1], 'h') == [0];
    assert Occurrences(s[..2], 'h') == [0];
    assert Occurrences(s[..3], 'h') == [0];
    assert Occurrences(s[..4], 'h') == [0];
    assert Occurrences(s, 'h') == [0];
    assert Occurrences(s[..1], 'l') == [];
    assert Occurrences(s[..2], 'l') == [];
    assert Occurrences(s[..3], 'l') == [2];
    assert Occurrences(s, 'l') == [2, 3];
    assert Occurrences(s[..1], 'o') == [];
    assert Occurrences(s[..2], 'o') == [];
    assert Occurrences(s[..3], 'o') == [];
    assert Occurrences(s[..4], 'o') == [];
    assert Occurrences(s, 'o') == [4];
  }

  /** Indexing "hello" under "0" into an empty index: h at [0], l at [2, 3], o at [4]. */
  lemma HelloBuckets()
    ensures var index := IndexAdd(map[], "0", "hello");
      && index.Keys == {'h', 'e', 'l', 'o'}
      && index['h'] == Bucket(["0"], map["0" := [0]])
      && index['l'] == Bucket(["0"], map["0" := [2, 3]])
      && index['o'] == Bucket(["0"], map["0" := [4]])
  {
    var s: Content := "hello";
    var empty: map<char, Bucket> := map[];
    IndexAddKeys(empty, "0", s);
    assert forall c :: c in s <==> c in {'h', 'e', 'l', 'o'};
    HelloOccurrences();
    IndexAddBucket(empty, "0", s, 'h');
    IndexAddBucket(empty, "0", s, 'l');
    IndexAddBucket(empty, "0", s, 'o');
    assert s[0] == 'h' && s[2] == 'l' && s[4] == 'o';
  }

  /** Indexing "hello" as the first entry: h at [0], l at [2, 3], o at [4]. */
  lemma HelloIndexed()
    ensures var d := AppendDoc(EmptyDocument(), "hello");
      && d.ids == ["0"] && d.entries == map["0" := "hello"]
      && d.index.Keys == {'h', 'e', 'l', 'o'}
      && d.index['h'] == Bucket(["0"], map["0" := [0]])
      && d.index['l'] == Bucket(["0"], map["0" := [2, 3]])
      && d.index['o'] == Bucket(["0"], map["0" := [4]])
  {
    var s: Content := "hello";
    CStrWhole(s);
    HelloBuckets();
    assert AppendDoc(EmptyDocument(), s) == Document(["0"], map["0" := s], IndexAdd(map[], "0", s));
  }

  /** Removing "0" from {"0": "cat", "1": "dog"} leaves {"1": "dog"}: surviving ids are not renumbered. */
  lemma RemovalKeepsIds()
    ensures var d := RemoveDoc(AppendDoc(AppendDoc(EmptyDocument(), "cat"), "dog"), "0");
      d.ids == ["1"] && d.entries == map["1" := "dog"]
  {
    var s1: Content := "cat";
    var s2: Content := "dog";
    CStrWhole(s1);
    CStrWhole(s2);
    DecimalRoundTrip(0);
    assert Decimal(0) == "0";
    assert NextId(["0"]) == Decimal(1) == "1";
    var d := AppendDoc(AppendDoc(EmptyDocument(), s1), s2);
    assert d.ids == ["0", "1"];
    assert d.entries == map["0" := s1, "1" := s2];
    assert (map["0" := s1, "1" := s2] - {"0"}) == map["1" := s2];
  }

  // ---------------------------------------------------------------------------
  // The store object: the rapidjson document updated in place

  class Store {
    var ids: seq<Id>
    var entries: map<Id, Content>
    var index: map<char, Bucket>

    function Doc(): Document
      reads this
    {
      Document(ids, entries, index)
    }

    ghost predicate Valid()
      reads this
    {
      DocValid(Doc())
    }

    /** CreateInitialCache for an absent store file: both members empty. */
    constructor ()
      ensures Doc() == EmptyDocument() && Valid()
    {
      ids, entries, index := [], map[], map[];
    }

    /** CopyEntry: assign the next id, add the member, then index the content codepoint by codepoint. */
    method Append(content: Content) returns (id: Id)
      requires Valid()
      modifies this
      ensures Valid()
      ensures Doc() == AppendDoc(old(Doc()), content)
      ensures id == NextId(old(ids)) && id !in old(entries)
    {
      id := "0";
      if ids != [] {   // the entries object is not empty
        id := Decimal(Stoi(ids[|ids| - 1]) + 1);
      }
      var s := CStr(content);
      ids := ids + [id];
      entries := entries[id := s];
      IndexEntry(id, s);
      NextIdFresh(old(ids));
      AppendPreservesValid(old(Doc()), content);
    }

    /** CopyEntry's indexing loop: every codepoint of s pushes its offset onto the id's list in its bucket. */
    method IndexEntry(id: Id, s: Content)
      modifies this
      ensures ids == old(ids) && entries == old(entries)
      ensures index == IndexAdd(old(index), id, s)
    {
      var k := 0;
      while k < |s|
        invariant 0 <= k <= |s|
        invariant ids == old(ids) && entries == old(entries)
        invariant index == IndexAdd(old(index), id, s[..k])
      {
        var c := s[k];
        ghost var before := index;
        if c in index {
          if id !in index[c].offsets {
            index := index[c := Bucket(index[c].ids + [id], index[c].offsets[id := []])];
          }
          index := index[c := Bucket(index[c].ids, index[c].offsets[id := index[c].offsets[id] + [k]])];
        } else {
          index := index[c := Bucket([id], map[id := [k]])];
        }
        assert index == AddOffset(before, c, id, k);
        assert s[..k + 1][..k] == s[..k];
        k := k + 1;
      }
      assert s[..k] == s;
    }

    /** The document part of a confirmed delete: erase the `entries` member, then erase the
        id from every index bucket in turn. */
    method Remove(id: Id)
      requires Valid()
      modifies this
      ensures Valid()
      ensures Doc() == RemoveDoc(old(Doc()), id)
    {
      RemovePreservesValid(Doc(), id);
      ids := RemoveFirst(ids, id);
      entries := entries - {id};
      var pending := index.Keys;
      while pending != {}
        invariant ids == RemoveFirst(old(ids), id) && entries == old(entries) - {id}
        invariant pending <= index.Keys == old(index).Keys
        invariant forall c :: c in index ==>
          index[c] == if c in pending then old(index)[c] else BucketWithout(old(index)[c], id)
        decreases pending
      {
        var c :| c in pending;
        index := index[c := BucketWithout(index[c], id)];
        pending := pending - {c};
      }
      assert index == map c | c in old(index) :: BucketWithout(old(index)[c], id);
    }
  }
}
