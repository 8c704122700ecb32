/** The record store: the `Url` collection (original URL paired with its
    numeric short code, original URL unique) and the `Counter` document named
    `urlId` whose `seq` field is the last short code issued. Here the store is a
    value; the class in module Server holds it as mutable state. */
module Records {
  import opened Optional

  datatype UrlRecord = UrlRecord(originalUrl: string, shortUrl: int)

  /** `records` is the collection in insertion order; `counter` is the
      `urlId` counter's `seq`. */
  datatype Store = Store(records: seq<UrlRecord>, counter: nat)

  /** The counter's schema default: a store that has issued nothing yet. */
  const CounterDefault: nat := 0
  const EmptyStore: Store := Store([], CounterDefault)

  /** `findOne({original_url: url})`: a record whose original URL is `url`, if any. */
  function FindByOriginal(records: seq<UrlRecord>, url: string): (r: Option<UrlRecord>)
    ensures r.Some? ==> r.value in records && r.value.originalUrl == url
    ensures r.None? ==> forall rec :: rec in records ==> rec.originalUrl != url
  {
    if records == [] then None
    else if records[0].originalUrl == url then Some(records[0])
    else FindByOriginal(records[1..], url)
  }

  /** `findOne({short_url: code})`: a record whose short code is `code`, if any. */
  function FindByShortUrl(records: seq<UrlRecord>, code: int): (r: Option<UrlRecord>)
    ensures r.Some? ==> r.value in records && r.value.shortUrl == code
    ensures r.None? ==> forall rec :: rec in records ==> rec.shortUrl != code
  {
    if records == [] then None
    else if records[0].shortUrl == code then Some(records[0])
    else FindByShortUrl(records[1..], code)
  }

  /** The unique index on `original_url`. */
  ghost predicate UniqueOriginals(records: seq<UrlRecord>)
  {
    forall i, j :: 0 <= i < j < |records| ==> records[i].originalUrl != records[j].originalUrl
  }

  /** Short codes rise strictly in creation order (hence no two are equal). */
  ghost predicate CreationOrdered(records: seq<UrlRecord>)
  {
    forall i, j :: 0 <= i < j < |records| ==> records[i].shortUrl < records[j].shortUrl
  }

  /** Every stored short code is one the counter has already issued. */
  ghost predicate Issued(s: Store)
  {
    forall i :: 0 <= i < |s.records| ==> 1 <= s.records[i].shortUrl <= s.counter
  }

  ghost predicate Valid(s: Store)
  {
    UniqueOriginals(s.records) && CreationOrdered(s.records) && Issued(s)
  }

  /** The upsert-and-increment on the `urlId` counter: raise `seq` by one and
      return the new value. */
  function NextSeq(s: Store): (nat, Store)
  {
    var next := s.counter + 1;
    (next, s.(counter := next))
  }

  datatype SaveOutcome = Saved(record: UrlRecord) | DuplicateKey

  /** `new Url({original_url: url}).save()`: the pre-save hook first draws the
      next counter value and stamps it as the short code; then the insert either
      succeeds or is refused by the unique index. A refused insert leaves the
      drawn code unused. */
  function Save(s: Store, url: string): (SaveOutcome, Store)
  {
    var (code, drawn) := NextSeq(s);
    var doc := UrlRecord(url, code);
    if FindByOriginal(drawn.records, url).Some? then (DuplicateKey, drawn)
    else (Saved(doc), drawn.(records := drawn.records + [doc]))
  }

  /** The empty store satisfies the invariant. */
  lemma EmptyStoreValid()
    ensures Valid(EmptyStore)
  {
  }

  /** Each draw raises the counter by exactly one, returns the new value, and
      that value is larger than every short code already stored. A draw on its
      own keeps the invariant. */
  lemma NextSeqFresh(s: Store)
    requires Valid(s)
    ensures NextSeq(s).0 == s.counter + 1 == NextSeq(s).1.counter
    ensures NextSeq(s).1.records == s.records
    ensures forall rec :: rec in s.records ==> rec.shortUrl < NextSeq(s).0
    ensures Valid(NextSeq(s).1)
  {
  }

  /** In a valid store, the record found by original URL is the only one with
      that URL. */
  lemma FindByOriginalUnique(records: seq<UrlRecord>, i: int)
    requires UniqueOriginals(records)
    requires 0 <= i < |records|
    ensures FindByOriginal(records, records[i].originalUrl) == Some(records[i])
  {
    var r := FindByOriginal(records, records[i].originalUrl);
    var k :| 0 <= k < |records| && records[k] == r.value;
    assert k == i;
  }

  /** In a valid store, the record found by short code is the only one with
      that code. */
  lemma FindByShortUrlUnique(records: seq<UrlRecord>, i: int)
    requires CreationOrdered(records)
    requires 0 <= i < |records|
    ensures FindByShortUrl(records, records[i].shortUrl) == Some(records[i])
  {
    var r := FindByShortUrl(records, records[i].shortUrl);
    var k :| 0 <= k < |records| && records[k] == r.value;
    assert k == i;
  }

  /** Saving a URL not yet stored appends exactly one record, stamped with the
      counter's new value. */
  lemma SaveNew(s: Store, url: string)
    requires FindByOriginal(s.records, url).None?
    ensures Save(s, url) == (Saved(UrlRecord(url, s.counter + 1)),
                             Store(s.records + [UrlRecord(url, s.counter + 1)], s.counter + 1))
  {
  }

  /** Saving a URL that is already stored fails on the unique index and adds
      no record, but the counter has still been raised: that code is skipped. */
  lemma SaveDuplicate(s: Store, url: string)
    requires exists rec :: rec in s.records && rec.originalUrl == url
    ensures Save(s, url) == (DuplicateKey, Store(s.records, s.counter + 1))
  {
  }

  /** Saving, successful or not, keeps the invariant: original URLs stay
      unique and short codes stay strictly increasing and issued. */
  lemma SavePreservesValid(s: Store, url: string)
    requires Valid(s)
    ensures Valid(Save(s, url).1)
  {
    var (outcome, s') := Save(s, url);
    if outcome.Saved? {
      var doc := UrlRecord(url, s.counter + 1);
      assert s'.records == s.records + [doc];
      forall i | 0 <= i < |s.records|
        ensures s.records[i].originalUrl != url && s.records[i].shortUrl < doc.shortUrl
      {
        assert s.records[i] in s.records;
      }
    }
  }

  /** Saving never removes or alters a record and never lowers the counter. */
  lemma SaveOnlyGrows(s: Store, url: string)
    ensures s.records <= Save(s, url).1.records
    ensures Save(s, url).1.counter == s.counter + 1
  {
  }
}
