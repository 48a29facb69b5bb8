/** The schema URLs of deposits and records (b2share/modules/deposit/api.py,
    b2share/modules/records/utils.py). Only the fragment of a URL, the part after the first '#'
    (section 3.5 of RFC 3986), tells a deposit from a record. */
module SchemaUrls {

  const RECORD_FRAGMENT := "#/json_schema"
  const DRAFT_FRAGMENT := "#/draft_json_schema"

  /** A URL without its fragment. */
  function Base(url: string): (b: string)
    ensures '#' !in b
    ensures b <= url
  {
    if url == [] || url[0] == '#' then [] else [url[0]] + Base(url[1..])
  }

  /** The schema of the record a deposit is published as. */
  function RecordSchema(url: string): string {
    Base(url) + RECORD_FRAGMENT
  }

  /** The schema of a new version's deposit. */
  function DraftSchema(url: string): string {
    Base(url) + DRAFT_FRAGMENT
  }

  predicate EndsWith(s: string, suffix: string) {
    |suffix| <= |s| && s[|s| - |suffix|..] == suffix
  }

  predicate IsPublication(url: string) {
    EndsWith(url, RECORD_FRAGMENT)
  }

  predicate IsDeposit(url: string) {
    EndsWith(url, DRAFT_FRAGMENT)
  }

  lemma {:induction false} BaseOfFragment(b: string, fragment: string)
    requires '#' !in b && fragment != [] && fragment[0] == '#'
    ensures Base(b + fragment) == b
  {
    if b != [] {
      assert (b + fragment)[1..] == b[1..] + fragment;
      BaseOfFragment(b[1..], fragment);
    } else {
      assert b + fragment == fragment;
    }
  }

  /** The two rewrites keep the rest of the URL and undo each other. */
  lemma RewritesKeepBase(url: string)
    ensures Base(RecordSchema(url)) == Base(url) == Base(DraftSchema(url))
    ensures RecordSchema(DraftSchema(url)) == RecordSchema(url)
    ensures DraftSchema(RecordSchema(url)) == DraftSchema(url)
  {
    BaseOfFragment(Base(url), RECORD_FRAGMENT);
    BaseOfFragment(Base(url), DRAFT_FRAGMENT);
  }

  /** No document is both, and each rewrite makes what it is named for. */
  lemma KindsAreDisjoint(url: string)
    ensures !(IsPublication(url) && IsDeposit(url))
    ensures IsPublication(RecordSchema(url)) && IsDeposit(DraftSchema(url))
  {
    var n := |RECORD_FRAGMENT|;
    if IsPublication(url) {
      assert url[|url| - n] == url[|url| - n..][0] == '#';
    }
    if IsDeposit(url) {
      var m := |DRAFT_FRAGMENT|;
      assert url[|url| - n] == url[|url| - m..][m - n] == 't';
    }
    assert RecordSchema(url)[|Base(url)|..] == RECORD_FRAGMENT;
    assert DraftSchema(url)[|Base(url)|..] == DRAFT_FRAGMENT;
  }
}
