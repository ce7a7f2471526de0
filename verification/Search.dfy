/** The inverted index over state metadata and its search (src/state_search.rs). */
module Searches {
  import opened Basics

  type Id = string

  /** `title` is the field the source calls `label`. */
  datatype Entry = Entry(
    stateId: Id, title: string, tags: seq<string>, createdAt: int, sizeBytes: nat, owner: string)

  datatype SortField = CreatedAt | Label | Size

  datatype SortOrder = Asc | Desc

  datatype Query = Query(
    query: Option<string>, tags: Option<seq<string>>, createdAfter: Option<int>, createdBefore: Option<int>,
    sortBy: SortField, sortOrder: SortOrder, page: nat, pageSize: nat)

  datatype SearchResult = SearchResult(total: nat, page: nat, pageSize: nat, totalPages: nat, results: seq<Entry>)

  // ---------- words ----------

  /** Unicode, left uninterpreted: lower-casing, which characters are alphanumeric, and lengths in UTF-8. */
  datatype TextRules = TextRules(lower: string -> string, alphanumeric: char -> bool, byteLength: string -> nat)

  /** Where the first run of alphanumeric characters ends. */
  function WordEnd(rules: TextRules, s: string): (end: nat)
    ensures end <= |s| && (end < |s| ==> !rules.alphanumeric(s[end]))
    ensures forall i :: 0 <= i < end ==> rules.alphanumeric(s[i])
  {
    if s == [] || !rules.alphanumeric(s[0]) then 0 else 1 + WordEnd(rules, s[1..])
  }

  /** `split` at every character that is not alphanumeric; pieces may be empty. */
  function Split(rules: TextRules, s: string): seq<string> {
    var end := WordEnd(rules, s);
    if end == |s| then [s] else [s[..end]] + Split(rules, s[end + 1..])
  }

  function LongEnough(rules: TextRules, pieces: seq<string>): seq<string> {
    if pieces == [] then []
    else
      (if pieces[0] != "" && rules.byteLength(pieces[0]) >= 2 then [pieces[0]] else [])
      + LongEnough(rules, pieces[1..])
  }

  function Tokenize(rules: TextRules, text: string): seq<string> {
    LongEnough(rules, Split(rules, rules.lower(text)))
  }

  /** s[i..j] is a maximal run of alphanumeric characters. */
  ghost predicate IsPiece(rules: TextRules, s: string, i: int, j: int) {
    && 0 <= i <= j <= |s|
    && (forall k :: i <= k < j ==> rules.alphanumeric(s[k]))
    && (i == 0 || !rules.alphanumeric(s[i - 1]))
    && (j == |s| || !rules.alphanumeric(s[j]))
  }

  /** Behind a separator at `cut`, pieces are the pieces of what is left. */
  lemma PiecesBehind(rules: TextRules, s: string, cut: nat, i: int, j: int)
    requires cut < |s| && !rules.alphanumeric(s[cut]) && cut < i <= j <= |s|
    ensures IsPiece(rules, s, i, j) <==> IsPiece(rules, s[cut + 1..], i - (cut + 1), j - (cut + 1))
    ensures s[i..j] == s[cut + 1..][i - (cut + 1)..j - (cut + 1)]
  {
    var rest, lo, hi := s[cut + 1..], i - (cut + 1), j - (cut + 1);
    forall k | 0 <= k < |rest| ensures rest[k] == s[k + (cut + 1)] {}
    if IsPiece(rules, rest, lo, hi) {
      forall k | i <= k < j ensures rules.alphanumeric(s[k]) {
        assert s[k] == rest[k - (cut + 1)];
      }
    }
  }

  /** The only piece that starts at or before the first separator is the first run. */
  lemma FirstPiece(rules: TextRules, s: string, i: int, j: int)
    requires IsPiece(rules, s, i, j) && i <= WordEnd(rules, s)
    ensures i == 0 && j == WordEnd(rules, s)
  {
    assert i == 0 || i - 1 < WordEnd(rules, s);
  }

  lemma {:induction false} SplitFinds(rules: TextRules, s: string, i: int, j: int)
    requires 0 <= i <= j <= |s| && IsPiece(rules, s, i, j)
    ensures s[i..j] in Split(rules, s)
    decreases |s|
  {
    hide IsPiece;
    var end := WordEnd(rules, s);
    if i <= end {
      FirstPiece(rules, s, i, j);
      assert s[0..end] == s[..end] && s[..|s|] == s;
    } else {
      PiecesBehind(rules, s, end, i, j);
      SplitFinds(rules, s[end + 1..], i - (end + 1), j - (end + 1));
    }
  }

  lemma FirstRunIsPiece(rules: TextRules, s: string)
    ensures IsPiece(rules, s, 0, WordEnd(rules, s)) && s[0..WordEnd(rules, s)] == s[..WordEnd(rules, s)]
  {
  }

  lemma SplitHasFirstRun(rules: TextRules, s: string, w: string)
    requires w in Split(rules, s)
    ensures
      var end := WordEnd(rules, s);
      w == s[..end] || (end < |s| && w in Split(rules, s[end + 1..]))
  {
    hide WordEnd;
    assert s[..|s|] == s;
  }

  lemma {:induction false} SplitFindsOnly(rules: TextRules, s: string, w: string) returns (i: int, j: int)
    requires w in Split(rules, s)
    ensures 0 <= i <= j <= |s| && IsPiece(rules, s, i, j) && s[i..j] == w
    decreases |s|
  {
    hide IsPiece, Split;
    var end := WordEnd(rules, s);
    FirstRunIsPiece(rules, s);
    SplitHasFirstRun(rules, s, w);
    if w == s[..end] {
      i, j := 0, end;
    } else {
      var lo, hi := SplitFindsOnly(rules, s[end + 1..], w);
      i, j := lo + (end + 1), hi + (end + 1);
      PiecesBehind(rules, s, end, i, j);
    }
  }

  lemma {:induction false} LongEnoughIsExact(rules: TextRules, pieces: seq<string>, w: string)
    ensures w in LongEnough(rules, pieces) <==> w in pieces && w != "" && rules.byteLength(w) >= 2
    decreases |pieces|
  {
    if pieces != [] {
      LongEnoughIsExact(rules, pieces[1..], w);
      assert pieces == [pieces[0]] + pieces[1..];
    }
  }

  /**
   * The searchable words of a text: exactly the maximal alphanumeric runs of its lower-cased form that are at least
   * two bytes long.
   */
  lemma TokensAreTheWords(rules: TextRules, text: string, w: string)
    ensures
      var s := rules.lower(text);
      w in Tokenize(rules, text) <==>
        w != "" && rules.byteLength(w) >= 2 && exists i, j :: IsPiece(rules, s, i, j) && s[i..j] == w
  {
    var s := rules.lower(text);
    if w in Split(rules, s) {
      var i, j := SplitFindsOnly(rules, s, w);
    }
    forall i, j | IsPiece(rules, s, i, j) ensures s[i..j] in Split(rules, s) {
      SplitFinds(rules, s, i, j);
    }
    LongEnoughIsExact(rules, Split(rules, rules.lower(text)), w);
  }

  // ---------- inverted indices ----------

  type Inverted = map<string, set<Id>>

  function Posting(index: Inverted, key: string): set<Id> {
    if key in index then index[key] else {}
  }

  function Insert(index: Inverted, id: Id, keys: seq<string>): Inverted
    decreases |keys|
  {
    if keys == [] then index else Insert(index[keys[0] := Posting(index, keys[0]) + {id}], id, keys[1..])
  }

  function WithdrawOne(index: Inverted, id: Id, key: string): Inverted {
    if key !in index then index
    else if index[key] - {id} == {} then index - {key}
    else index[key := index[key] - {id}]
  }

  function Withdraw(index: Inverted, id: Id, keys: seq<string>): Inverted
    decreases |keys|
  {
    if keys == [] then index else Withdraw(WithdrawOne(index, id, keys[0]), id, keys[1..])
  }

  /** The index says exactly which identifiers have which key, and has no empty set. */
  ghost predicate Inverts(index: Inverted, keys: map<Id, set<string>>) {
    && (forall k, id :: id in Posting(index, k) <==> id in keys && k in keys[id])
    && (forall k :: k in index ==> index[k] != {})
  }

  function SetOf(s: seq<string>): set<string> {
    set x | x in s
  }

  lemma {:induction false} InsertPosting(index: Inverted, id: Id, keys: seq<string>, k: string)
    ensures Posting(Insert(index, id, keys), k) == Posting(index, k) + if k in keys then {id} else {}
    ensures k in Insert(index, id, keys) <==> k in index || k in keys
    decreases |keys|
  {
    if keys != [] {
      InsertPosting(index[keys[0] := Posting(index, keys[0]) + {id}], id, keys[1..], k);
      assert keys == [keys[0]] + keys[1..];
    }
  }

  lemma {:induction false} WithdrawPosting(index: Inverted, id: Id, keys: seq<string>, k: string)
    requires forall k :: k in index ==> index[k] != {}
    ensures Posting(Withdraw(index, id, keys), k) == if k in keys then Posting(index, k) - {id} else Posting(index, k)
    ensures k in Withdraw(index, id, keys) <==> Posting(Withdraw(index, id, keys), k) != {}
    decreases |keys|
  {
    if keys != [] {
      WithdrawPosting(WithdrawOne(index, id, keys[0]), id, keys[1..], k);
      assert keys == [keys[0]] + keys[1..];
    }
  }

  lemma InsertKeepsInverse(index: Inverted, keys: map<Id, set<string>>, id: Id, words: seq<string>)
    requires Inverts(index, keys) && id !in keys
    ensures Inverts(Insert(index, id, words), keys[id := SetOf(words)])
  {
    var after := Insert(index, id, words);
    forall k ensures Posting(after, k) == Posting(index, k) + (if k in words then {id} else {})
             ensures k in after <==> k in index || k in words
    {
      InsertPosting(index, id, words, k);
    }
    hide Insert;
  }

  lemma WithdrawKeepsInverse(index: Inverted, keys: map<Id, set<string>>, id: Id, words: seq<string>)
    requires Inverts(index, keys) && id in keys && keys[id] == SetOf(words)
    ensures Inverts(Withdraw(index, id, words), keys - {id})
  {
    var after := Withdraw(index, id, words);
    forall k ensures Posting(after, k) == (if k in words then Posting(index, k) - {id} else Posting(index, k))
             ensures k in after <==> Posting(after, k) != {}
    {
      WithdrawPosting(index, id, words, k);
    }
    hide Withdraw;
  }

  // ---------- the index of states ----------

  datatype Contents = Contents(entries: map<Id, Entry>, labels: Inverted, tags: Inverted)

  function LabelKeys(rules: TextRules, entries: map<Id, Entry>): map<Id, set<string>> {
    map id | id in entries :: SetOf(Tokenize(rules, entries[id].title))
  }

  function TagKeys(entries: map<Id, Entry>): map<Id, set<string>> {
    map id | id in entries :: SetOf(entries[id].tags)
  }

  /** The two inverted indices hold exactly what can be computed from the entries. */
  ghost predicate Consistent(rules: TextRules, c: Contents) {
    && (forall id :: id in c.entries ==> c.entries[id].stateId == id)
    && Inverts(c.labels, LabelKeys(rules, c.entries))
    && Inverts(c.tags, TagKeys(c.entries))
  }

  function Removed(rules: TextRules, c: Contents, id: Id): Contents {
    if id !in c.entries then c
    else
      Contents(c.entries - {id}, Withdraw(c.labels, id, Tokenize(rules, c.entries[id].title)),
               Withdraw(c.tags, id, c.entries[id].tags))
  }

  function Indexed(rules: TextRules, c: Contents, entry: Entry): Contents {
    var r := Removed(rules, c, entry.stateId);
    Contents(r.entries[entry.stateId := entry], Insert(r.labels, entry.stateId, Tokenize(rules, entry.title)),
             Insert(r.tags, entry.stateId, entry.tags))
  }

  lemma RemovalKeepsConsistent(rules: TextRules, c: Contents, id: Id)
    requires Consistent(rules, c)
    ensures Consistent(rules, Removed(rules, c, id))
  {
    hide Inverts, Tokenize;
    if id in c.entries {
      var e := c.entries[id];
      WithdrawKeepsInverse(c.labels, LabelKeys(rules, c.entries), id, Tokenize(rules, e.title));
      WithdrawKeepsInverse(c.tags, TagKeys(c.entries), id, e.tags);
      assert LabelKeys(rules, c.entries) - {id} == LabelKeys(rules, c.entries - {id});
      assert TagKeys(c.entries) - {id} == TagKeys(c.entries - {id});
    }
  }

  lemma IndexingKeepsConsistent(rules: TextRules, c: Contents, entry: Entry)
    requires Consistent(rules, c)
    ensures Consistent(rules, Indexed(rules, c, entry))
  {
    hide Inverts, Tokenize;
    var id := entry.stateId;
    RemovalKeepsConsistent(rules, c, id);
    var r := Removed(rules, c, id);
    InsertKeepsInverse(r.labels, LabelKeys(rules, r.entries), id, Tokenize(rules, entry.title));
    InsertKeepsInverse(r.tags, TagKeys(r.entries), id, entry.tags);
    var entries := r.entries[id := entry];
    assert LabelKeys(rules, r.entries)[id := SetOf(Tokenize(rules, entry.title))] == LabelKeys(rules, entries);
    assert TagKeys(r.entries)[id := SetOf(entry.tags)] == TagKeys(entries);
  }

  datatype Op = IndexOp(entry: Entry) | RemoveOp(id: Id)

  function Run(rules: TextRules, c: Contents, ops: seq<Op>): Contents
    decreases |ops|
  {
    if ops == [] then c
    else
      var next :=
        match ops[0]
        case IndexOp(entry) => Indexed(rules, c, entry)
        case RemoveOp(id) => Removed(rules, c, id);
      Run(rules, next, ops[1..])
  }

  /** What the entries are after a run, without any index. */
  function PlainRun(entries: map<Id, Entry>, ops: seq<Op>): map<Id, Entry>
    decreases |ops|
  {
    if ops == [] then entries
    else
      PlainRun(match ops[0] case IndexOp(entry) => entries[entry.stateId := entry] case RemoveOp(id) => entries - {id},
               ops[1..])
  }

  /**
   * After any run of indexing and removing, the entries are those of a plain map, and both inverted indices are
   * exactly the ones computed from these entries, without an empty set left behind.
   */
  lemma {:induction false} RunKeepsConsistent(rules: TextRules, c: Contents, ops: seq<Op>)
    requires Consistent(rules, c)
    ensures Consistent(rules, Run(rules, c, ops)) && Run(rules, c, ops).entries == PlainRun(c.entries, ops)
    decreases |ops|
  {
    if ops != [] {
      match ops[0] {
        case IndexOp(entry) =>
          IndexingKeepsConsistent(rules, c, entry);
          assert Indexed(rules, c, entry).entries == c.entries[entry.stateId := entry];
          hide Consistent, Indexed;
          RunKeepsConsistent(rules, Indexed(rules, c, entry), ops[1..]);
        case RemoveOp(id) =>
          RemovalKeepsConsistent(rules, c, id);
          assert Removed(rules, c, id).entries == c.entries - {id};
          hide Consistent, Removed;
          RunKeepsConsistent(rules, Removed(rules, c, id), ops[1..]);
      }
    }
  }

  // ---------- filtering ----------

  function Filter(s: seq<Entry>, p: Entry -> bool): seq<Entry> {
    if s == [] then [] else (if p(s[0]) then [s[0]] else []) + Filter(s[1..], p)
  }

  lemma {:induction false} FilterTwice(s: seq<Entry>, p: Entry -> bool, q: Entry -> bool)
    ensures Filter(Filter(s, p), q) == Filter(s, Both(p, q))
    decreases |s|
  {
    if s != [] {
      FilterTwice(s[1..], p, q);
      var rest := Filter(s[1..], p);
      assert ([s[0]] + rest)[1..] == rest && [] + rest == rest;
    }
  }

  lemma {:induction false} FilterAgrees(s: seq<Entry>, p: Entry -> bool, q: Entry -> bool)
    requires forall e :: e in s ==> (p(e) <==> q(e))
    ensures Filter(s, p) == Filter(s, q)
    decreases |s|
  {
    if s != [] {
      assert s[0] in s && forall e :: e in s[1..] ==> e in s;
      FilterAgrees(s[1..], p, q);
    }
  }

  predicate MatchesText(rules: TextRules, q: Query, e: Entry) {
    q.query.Some? ==> exists w :: w in Tokenize(rules, q.query.value) && w in Tokenize(rules, e.title)
  }

  predicate MatchesTags(q: Query, e: Entry) {
    q.tags.Some? ==> forall t :: t in q.tags.value ==> t in e.tags
  }

  predicate MatchesDates(q: Query, e: Entry) {
    && (q.createdAfter.Some? ==> e.createdAt >= q.createdAfter.value)
    && (q.createdBefore.Some? ==> e.createdAt <= q.createdBefore.value)
  }

  /** What a query asks for, without any index. */
  predicate Matches(rules: TextRules, q: Query, e: Entry) {
    MatchesText(rules, q, e) && MatchesTags(q, e) && MatchesDates(q, e)
  }

  /** The tag test of the source, which also believes the tag index. */
  predicate MatchesIndexedTags(tagIndex: Inverted, q: Query, e: Entry) {
    q.tags.Some? ==> forall t :: t in q.tags.value ==> t in e.tags || e.stateId in Posting(tagIndex, t)
  }

  // The tests of the stages, as values.

  function ByText(rules: TextRules, q: Query): Entry -> bool {
    e => MatchesText(rules, q, e)
  }

  function ByIndexedTags(tagIndex: Inverted, q: Query): Entry -> bool {
    e => MatchesIndexedTags(tagIndex, q, e)
  }

  function ByTags(q: Query): Entry -> bool {
    e => MatchesTags(q, e)
  }

  function After(q: Query): Entry -> bool {
    (e: Entry) => q.createdAfter.Some? ==> e.createdAt >= q.createdAfter.value
  }

  function Before(q: Query): Entry -> bool {
    (e: Entry) => q.createdBefore.Some? ==> e.createdAt <= q.createdBefore.value
  }

  function ByQuery(rules: TextRules, q: Query): Entry -> bool {
    e => Matches(rules, q, e)
  }

  function Both(p: Entry -> bool, q: Entry -> bool): Entry -> bool {
    e => p(e) && q(e)
  }

  /** The order in which the hash map hands out its values. */
  ghost predicate Enumerates(order: seq<Id>, entries: map<Id, Entry>) {
    NoDuplicates(order) && forall id :: id in order <==> id in entries
  }

  function Values(order: seq<Id>, entries: map<Id, Entry>): seq<Entry>
    requires forall id :: id in order ==> id in entries
  {
    seq(|order|, i requires 0 <= i < |order| => entries[order[i]])
  }

  /** A plain scan of the entries. */
  function Scan(rules: TextRules, q: Query, order: seq<Id>, entries: map<Id, Entry>): seq<Entry>
    requires forall id :: id in order ==> id in entries
  {
    Filter(Values(order, entries), ByQuery(rules, q))
  }

  lemma {:induction false} FilterEverything(s: seq<Entry>, p: Entry -> bool)
    requires forall e :: e in s ==> p(e)
    ensures Filter(s, p) == s
    decreases |s|
  {
    if s != [] {
      assert s[0] in s && forall e :: e in s[1..] ==> e in s;
      FilterEverything(s[1..], p);
      assert s == [s[0]] + s[1..];
    }
  }

  lemma {:induction false} FilterSelects(s: seq<Entry>, p: Entry -> bool, e: Entry)
    ensures e in Filter(s, p) <==> e in s && p(e)
    decreases |s|
  {
    if s != [] {
      FilterSelects(s[1..], p, e);
      assert s == [s[0]] + s[1..];
    }
  }

  /** The tag index adds nothing to what the entries say themselves. */
  lemma IndexedTagsAreTags(rules: TextRules, q: Query, c: Contents, e: Entry)
    requires Consistent(rules, c) && e.stateId in c.entries && c.entries[e.stateId] == e
    ensures MatchesIndexedTags(c.tags, q, e) <==> MatchesTags(q, e)
  {
    hide Tokenize;
    assert TagKeys(c.entries)[e.stateId] == SetOf(e.tags);
  }

  /** A stage that is switched off is one that keeps everything. */
  lemma SwitchedOff(s: seq<Entry>, active: bool, p: Entry -> bool)
    requires !active ==> forall e :: e in s ==> p(e)
    ensures Filter(s, p) == if active then Filter(s, p) else s
  {
    if !active {
      FilterEverything(s, p);
    }
  }

  /** The stages of the search, the tag index included, select what a plain scan selects. */
  lemma StagesAreTheScan(rules: TextRules, q: Query, c: Contents, order: seq<Id>)
    requires Consistent(rules, c) && Enumerates(order, c.entries)
    ensures
      Filter(Filter(Filter(Filter(Values(order, c.entries), ByText(rules, q)), ByIndexedTags(c.tags, q)), After(q)),
             Before(q))
      == Scan(rules, q, order, c.entries)
  {
    var all := Values(order, c.entries);
    var texted := Filter(all, ByText(rules, q));
    forall e | e in texted ensures ByIndexedTags(c.tags, q)(e) <==> ByTags(q)(e) {
      FilterSelects(all, ByText(rules, q), e);
      IndexedTagsAreTags(rules, q, c, e);
    }
    FilterAgrees(texted, ByIndexedTags(c.tags, q), ByTags(q));
    StagesCombine(rules, q, all);
  }

  lemma StagesCombine(rules: TextRules, q: Query, all: seq<Entry>)
    ensures
      Filter(Filter(Filter(Filter(all, ByText(rules, q)), ByTags(q)), After(q)), Before(q))
      == Filter(all, ByQuery(rules, q))
  {
    hide Filter, MatchesText, MatchesTags;
    var text, tags, after, before := ByText(rules, q), ByTags(q), After(q), Before(q);
    FilterTwice(all, text, tags);
    FilterTwice(all, Both(text, tags), after);
    FilterTwice(all, Both(Both(text, tags), after), before);
    FilterAgrees(all, Both(Both(Both(text, tags), after), before), ByQuery(rules, q));
  }

  // ---------- sorting ----------

  predicate LexLeq(a: string, b: string) {
    a == [] || (b != [] && (a[0] < b[0] || (a[0] == b[0] && LexLeq(a[1..], b[1..]))))
  }

  predicate FieldLeq(field: SortField, a: Entry, b: Entry) {
    match field
    case CreatedAt => a.createdAt <= b.createdAt
    case Label => LexLeq(a.title, b.title)
    case Size => a.sizeBytes <= b.sizeBytes
  }

  /** a may stand before b. */
  predicate Precedes(q: Query, a: Entry, b: Entry) {
    if q.sortOrder == Asc then FieldLeq(q.sortBy, a, b) else FieldLeq(q.sortBy, b, a)
  }

  lemma {:induction false} LexTotal(a: string, b: string)
    ensures LexLeq(a, b) || LexLeq(b, a)
    decreases |a|
  {
    if a != [] && b != [] && a[0] == b[0] {
      LexTotal(a[1..], b[1..]);
    }
  }

  lemma {:induction false} LexTransitive(a: string, b: string, c: string)
    requires LexLeq(a, b) && LexLeq(b, c)
    ensures LexLeq(a, c)
    decreases |a|
  {
    if a != [] && a[0] == b[0] && b[0] == c[0] {
      LexTransitive(a[1..], b[1..], c[1..]);
    }
  }

  lemma PrecedesIsTotal(q: Query, a: Entry, b: Entry)
    ensures Precedes(q, a, b) || Precedes(q, b, a)
  {
    LexTotal(a.title, b.title);
  }

  lemma PrecedesIsTransitive(q: Query, a: Entry, b: Entry, c: Entry)
    requires Precedes(q, a, b) && Precedes(q, b, c)
    ensures Precedes(q, a, c)
  {
    if q.sortBy == Label {
      if q.sortOrder == Asc {
        LexTransitive(a.title, b.title, c.title);
      } else {
        LexTransitive(c.title, b.title, a.title);
      }
    }
  }

  /** The first difference of a and b is at k, and a is smaller there. */
  predicate SmallerAt(a: string, b: string, k: nat) {
    k < |a| && k < |b| && a[..k] == b[..k] && a[k] < b[k]
  }

  lemma SmallerAtOneMore(a: string, b: string, k: nat)
    requires a != [] && b != [] && a[0] == b[0]
    ensures SmallerAt(a[1..], b[1..], k) <==> SmallerAt(a, b, k + 1)
  {
    if k + 1 < |a| && k + 1 < |b| {
      assert a[..k + 1] == [a[0]] + a[1..][..k] && b[..k + 1] == [b[0]] + b[1..][..k];
      assert a[..k + 1][1..] == a[1..][..k] && b[..k + 1][1..] == b[1..][..k];
    }
  }

  lemma SmallerAtFront(a: string, b: string, k: nat)
    requires a != [] && b != [] && a[0] != b[0]
    ensures SmallerAt(a, b, k) <==> k == 0 && a[0] < b[0]
  {
    if k == 0 {
      assert a[..0] == b[..0];
    } else if k < |a| && k < |b| {
      assert a[..k][0] == a[0] && b[..k][0] == b[0];
    }
  }

  /** Lexicographic order: a is a prefix of b, or smaller at the first difference. */
  lemma {:induction false} LexIsLexicographic(a: string, b: string)
    ensures LexLeq(a, b) <==> a <= b || exists k: nat :: SmallerAt(a, b, k)
    decreases |a|
  {
    hide SmallerAt;
    if a == [] || b == [] {
      forall k: nat ensures !SmallerAt(a, b, k) {
        NotSmallerAtEnd(a, b, k);
      }
    } else if a[0] == b[0] {
      LexIsLexicographic(a[1..], b[1..]);
      assert a == [a[0]] + a[1..] && b == [b[0]] + b[1..];
      forall k: nat ensures SmallerAt(a[1..], b[1..], k) <==> SmallerAt(a, b, k + 1) {
        SmallerAtOneMore(a, b, k);
      }
      NotSmallerAtEqual(a, b);
      if exists k: nat :: SmallerAt(a, b, k) {
        var k: nat :| SmallerAt(a, b, k);
        assert SmallerAt(a[1..], b[1..], k - 1) <==> SmallerAt(a, b, k - 1 + 1);
      }
    } else {
      forall k: nat ensures SmallerAt(a, b, k) <==> k == 0 && a[0] < b[0] {
        SmallerAtFront(a, b, k);
      }
      assert SmallerAt(a, b, 0) <==> a[0] < b[0];
    }
  }

  lemma NotSmallerAtEnd(a: string, b: string, k: nat)
    requires a == [] || b == []
    ensures !SmallerAt(a, b, k)
  {
  }

  lemma NotSmallerAtEqual(a: string, b: string)
    requires a != [] && b != [] && a[0] == b[0]
    ensures !SmallerAt(a, b, 0)
  {
  }

  /** In front of the first element that need not come earlier. */
  function InsertSorted(q: Query, e: Entry, s: seq<Entry>): seq<Entry> {
    if s == [] || Precedes(q, e, s[0]) then [e] + s else [s[0]] + InsertSorted(q, e, s[1..])
  }

  /** The stable sort of the standard library, whose result `StableSortIsUnique` determines. */
  function SortBy(q: Query, s: seq<Entry>): seq<Entry> {
    if s == [] then [] else InsertSorted(q, s[0], SortBy(q, s[1..]))
  }

  ghost predicate IsSorted(q: Query, s: seq<Entry>) {
    forall i, j :: 0 <= i < j < |s| ==> Precedes(q, s[i], s[j])
  }

  lemma {:induction false} InsertSortedKeepsAll(q: Query, e: Entry, s: seq<Entry>)
    ensures multiset(InsertSorted(q, e, s)) == multiset{e} + multiset(s)
    decreases |s|
  {
    if s != [] && !Precedes(q, e, s[0]) {
      InsertSortedKeepsAll(q, e, s[1..]);
      assert s == [s[0]] + s[1..];
    }
  }

  lemma SortedWithFirst(q: Query, first: Entry, rest: seq<Entry>)
    requires IsSorted(q, rest) && forall j :: 0 <= j < |rest| ==> Precedes(q, first, rest[j])
    ensures IsSorted(q, [first] + rest)
  {
    hide Precedes;
    var r := [first] + rest;
    forall i, j | 0 <= i < j < |r| ensures Precedes(q, r[i], r[j]) {
      assert r[j] == rest[j - 1] && (i > 0 ==> r[i] == rest[i - 1]);
    }
  }

  lemma {:induction false} InsertSortedSorts(q: Query, e: Entry, s: seq<Entry>)
    requires IsSorted(q, s)
    ensures IsSorted(q, InsertSorted(q, e, s))
    decreases |s|
  {
    hide Precedes;
    if s == [] || Precedes(q, e, s[0]) {
      forall j | 0 <= j < |s| ensures Precedes(q, e, s[j]) {
        if j > 0 {
          PrecedesIsTransitive(q, e, s[0], s[j]);
        }
      }
      SortedWithFirst(q, e, s);
    } else {
      PrecedesIsTotal(q, e, s[0]);
      InsertSortedSorts(q, e, s[1..]);
      InsertSortedKeepsAll(q, e, s[1..]);
      var rest := InsertSorted(q, e, s[1..]);
      forall j | 0 <= j < |rest| ensures Precedes(q, s[0], rest[j]) {
        assert rest[j] in multiset(rest);
        assert rest[j] == e || rest[j] in s[1..];
      }
      SortedWithFirst(q, s[0], rest);
    }
  }

  /** Sorting rearranges, and puts everything in order. */
  lemma {:induction false} SortBySorts(q: Query, s: seq<Entry>)
    ensures multiset(SortBy(q, s)) == multiset(s) && IsSorted(q, SortBy(q, s))
    decreases |s|
  {
    if s != [] {
      SortBySorts(q, s[1..]);
      InsertSortedKeepsAll(q, s[0], SortBy(q, s[1..]));
      InsertSortedSorts(q, s[0], SortBy(q, s[1..]));
      assert s == [s[0]] + s[1..];
    }
  }

  /** Entries the order does not tell apart from x. */
  predicate Ties(q: Query, x: Entry, e: Entry) {
    Precedes(q, x, e) && Precedes(q, e, x)
  }

  function TiedWith(q: Query, x: Entry): Entry -> bool {
    e => Ties(q, x, e)
  }

  lemma {:induction false} InsertSortedIsStable(q: Query, e: Entry, s: seq<Entry>, x: Entry)
    requires IsSorted(q, s)
    ensures Filter(InsertSorted(q, e, s), TiedWith(q, x)) == Filter([e] + s, TiedWith(q, x))
    decreases |s|
  {
    var p := TiedWith(q, x);
    if s != [] && !Precedes(q, e, s[0]) {
      InsertSortedIsStable(q, e, s[1..], x);
      var rest := InsertSorted(q, e, s[1..]);
      assert ([s[0]] + rest)[1..] == rest && ([e] + s)[1..] == s && ([e] + s[1..])[1..] == s[1..];
      if Ties(q, x, e) && Ties(q, x, s[0]) {
        PrecedesIsTransitive(q, e, x, s[0]);
      }
      hide Precedes, InsertSorted;
      assert Filter([e] + s, p) == (if p(e) then [e] else []) + Filter(s, p);
      assert Filter(s, p) == (if p(s[0]) then [s[0]] else []) + Filter(s[1..], p);
      assert Filter([e] + s[1..], p) == (if p(e) then [e] else []) + Filter(s[1..], p);
      assert Filter([s[0]] + rest, p) == (if p(s[0]) then [s[0]] else []) + Filter(rest, p);
    }
  }

  /** And ties keep the order they came in. */
  lemma {:induction false} SortByIsStable(q: Query, s: seq<Entry>, x: Entry)
    ensures Filter(SortBy(q, s), TiedWith(q, x)) == Filter(s, TiedWith(q, x))
    decreases |s|
  {
    var p := TiedWith(q, x);
    if s != [] {
      SortByIsStable(q, s[1..], x);
      SortBySorts(q, s[1..]);
      var rest := SortBy(q, s[1..]);
      InsertSortedIsStable(q, s[0], rest, x);
      hide Ties, InsertSorted, IsSorted;
      assert ([s[0]] + rest)[1..] == rest;
      assert Filter([s[0]] + rest, p) == (if p(s[0]) then [s[0]] else []) + Filter(rest, p);
    }
  }

  lemma {:induction false} FilterOfHead(s: seq<Entry>, p: Entry -> bool)
    requires s != []
    ensures Filter(s, p) == (if p(s[0]) then [s[0]] else []) + Filter(s[1..], p)
  {
  }

  /** The first of a sorted list may stand before all of it, itself included. */
  lemma HeadPrecedes(q: Query, s: seq<Entry>, e: Entry)
    requires s != [] && IsSorted(q, s) && e in multiset(s)
    ensures Precedes(q, s[0], e)
  {
    PrecedesIsTotal(q, s[0], s[0]);
    hide Precedes;
    var i :| 0 <= i < |s| && s[i] == e;
  }

  /** The heads of two sorted, stable rearrangements tie, so they come first among their ties, and are the same. */
  lemma SameHead(q: Query, s: seq<Entry>, t: seq<Entry>)
    requires s != [] && t != [] && multiset(s) == multiset(t) && IsSorted(q, s) && IsSorted(q, t)
    requires Filter(s, TiedWith(q, s[0])) == Filter(t, TiedWith(q, s[0]))
    ensures s[0] == t[0]
  {
    hide Precedes, IsSorted, Filter;
    assert s[0] in multiset(s) && t[0] in multiset(t);
    HeadPrecedes(q, s, s[0]);
    HeadPrecedes(q, s, t[0]);
    HeadPrecedes(q, t, s[0]);
    var tied := TiedWith(q, s[0]);
    assert tied(s[0]) && tied(t[0]);
    FilterOfHead(s, tied);
    FilterOfHead(t, tied);
    assert Filter(s, tied)[0] == s[0] && Filter(t, tied)[0] == t[0];
  }

  lemma SortedTail(q: Query, s: seq<Entry>)
    requires s != [] && IsSorted(q, s)
    ensures IsSorted(q, s[1..]) && s == [s[0]] + s[1..] && multiset(s[1..]) == multiset(s) - multiset{s[0]}
  {
    hide Precedes;
    assert s == [s[0]] + s[1..];
  }

  lemma SameTail(front: seq<Entry>, s: seq<Entry>, t: seq<Entry>)
    requires front + s == front + t
    ensures s == t
  {
    assert s == (front + s)[|front|..] && t == (front + t)[|front|..];
  }

  /** Being sorted and keeping ties in their order leaves no choice: there is one such rearrangement. */
  lemma {:induction false} StableSortIsUnique(q: Query, s: seq<Entry>, t: seq<Entry>)
    requires multiset(s) == multiset(t) && IsSorted(q, s) && IsSorted(q, t)
    requires forall x :: Filter(s, TiedWith(q, x)) == Filter(t, TiedWith(q, x))
    ensures s == t
    decreases |s|
  {
    assert |s| == |multiset(s)| == |multiset(t)| == |t|;
    if s != [] {
      hide Precedes, IsSorted, Filter, TiedWith;
      SameHead(q, s, t);
      SortedTail(q, s);
      SortedTail(q, t);
      forall x ensures Filter(s[1..], TiedWith(q, x)) == Filter(t[1..], TiedWith(q, x)) {
        var tied := TiedWith(q, x);
        FilterOfHead(s, tied);
        FilterOfHead(t, tied);
        assert Filter(s, tied) == Filter(t, tied);
        SameTail(if tied(s[0]) then [s[0]] else [], Filter(s[1..], tied), Filter(t[1..], tied));
      }
      StableSortIsUnique(q, s[1..], t[1..]);
    }
  }

  /** What being sorted means for the fields of any two results, in both orders. */
  lemma SortedFieldsFollow(q: Query, s: seq<Entry>, i: nat, j: nat)
    requires IsSorted(q, s) && i < j < |s|
    ensures q.sortBy == CreatedAt && q.sortOrder == Asc ==> s[i].createdAt <= s[j].createdAt
    ensures q.sortBy == CreatedAt && q.sortOrder == Desc ==> s[i].createdAt >= s[j].createdAt
    ensures q.sortBy == Size && q.sortOrder == Asc ==> s[i].sizeBytes <= s[j].sizeBytes
    ensures q.sortBy == Size && q.sortOrder == Desc ==> s[i].sizeBytes >= s[j].sizeBytes
    ensures q.sortBy == Label && q.sortOrder == Asc ==> LexLeq(s[i].title, s[j].title)
    ensures q.sortBy == Label && q.sortOrder == Desc ==> LexLeq(s[j].title, s[i].title)
  {
  }

  // ---------- pages ----------

  const U32: nat := 0x1_0000_0000

  /**
   * The page arithmetic in u32, from left to right. None: a zero page size, an overflow or a slice out of range, which
   * all panic.
   */
  function Paginate(matching: seq<Entry>, page: nat, pageSize: nat): Option<SearchResult> {
    var total := |matching|;
    if pageSize == 0 || total % U32 + pageSize >= U32 || page * pageSize >= U32 then None
    else
      var totalPages := (total % U32 + pageSize - 1) / pageSize;
      var start := page * pageSize;
      var end := if start + pageSize < total then start + pageSize else total;
      if start > end then None else Some(SearchResult(total, page, pageSize, totalPages, matching[start..end]))
  }

  /** The results of the first k pages, one after another; None when one of them panics. */
  function FirstPages(matching: seq<Entry>, k: nat, pageSize: nat): Option<seq<Entry>> {
    if k == 0 then Some([])
    else
      match (FirstPages(matching, k - 1, pageSize), Paginate(matching, k - 1, pageSize))
      case (Some(before), Some(result)) => Some(before + result.results)
      case (_, _) => None
  }

  function LeastOf(a: nat, b: nat): nat {
    if a < b then a else b
  }

  lemma PageIsSlice(matching: seq<Entry>, page: nat, pageSize: nat)
    requires 0 < pageSize && |matching| + pageSize < U32 && page * pageSize <= |matching|
    ensures
      var start := page * pageSize;
      && Paginate(matching, page, pageSize).Some?
      && Paginate(matching, page, pageSize).value.results == matching[start..LeastOf(start + pageSize, |matching|)]
  {
    var start := page * pageSize;
    assert |matching| % U32 == |matching|;
    assert start <= |matching| && start < U32;
  }

  /** A page says what it is: its place, the number of all matches and of all pages, and its matches one by one. */
  lemma PagesSayWhatTheyAre(matching: seq<Entry>, page: nat, pageSize: nat)
    requires Paginate(matching, page, pageSize).Some? && |matching| < U32
    ensures
      var r := Paginate(matching, page, pageSize).value;
      && r.total == |matching| && r.page == page && r.pageSize == pageSize
      && r.totalPages * pageSize >= |matching| && (r.totalPages > 0 ==> (r.totalPages - 1) * pageSize < |matching|)
      && |r.results| == LeastOf(pageSize, |matching| - page * pageSize)
      && forall i :: 0 <= i < |r.results| ==> r.results[i] == matching[page * pageSize + i]
  {
    PageIsSlice(matching, page, pageSize);
    CeilingCovers(|matching|, pageSize);
  }

  lemma OnePageMore(k: nat, pageSize: nat)
    ensures (k + 1) * pageSize == k * pageSize + pageSize
  {
  }

  lemma {:induction false} FirstPagesArePrefix(matching: seq<Entry>, k: nat, pageSize: nat)
    requires 0 < pageSize && |matching| + pageSize < U32
    requires k > 0 ==> (k - 1) * pageSize <= |matching|
    ensures FirstPages(matching, k, pageSize) == Some(matching[..LeastOf(k * pageSize, |matching|)])
    decreases k
  {
    hide Paginate;
    if k > 0 {
      OnePageMore(k - 1, pageSize);
      if k > 1 {
        OnePageMore(k - 2, pageSize);
      }
      FirstPagesArePrefix(matching, k - 1, pageSize);
      PageIsSlice(matching, k - 1, pageSize);
      JoinSlices(matching, (k - 1) * pageSize, LeastOf(k * pageSize, |matching|));
    }
  }

  lemma JoinSlices(s: seq<Entry>, mid: nat, end: nat)
    requires mid <= end <= |s|
    ensures s[..mid] + s[mid..end] == s[..end]
  {
  }

  lemma CeilingCovers(total: nat, pageSize: nat)
    requires 0 < pageSize
    ensures
      var k := (total + pageSize - 1) / pageSize;
      k * pageSize >= total && (k > 0 ==> (k - 1) * pageSize < total)
  {
    var k := (total + pageSize - 1) / pageSize;
    assert total + pageSize - 1 == k * pageSize + (total + pageSize - 1) % pageSize;
    if k > 0 {
      assert (k - 1) * pageSize == k * pageSize - pageSize;
    }
  }

  /** Pages 0 to total_pages - 1 can all be read, and concatenate to the given entries. */
  predicate PagesAre(matching: seq<Entry>, pageSize: nat, entries: seq<Entry>) {
    var first := Paginate(matching, 0, pageSize);
    first.Some? && FirstPages(matching, first.value.totalPages, pageSize) == Some(entries)
  }

  lemma PagesConcatenateToAll(matching: seq<Entry>, pageSize: nat)
    requires 0 < pageSize && |matching| + pageSize < U32
    ensures PagesAre(matching, pageSize, matching)
  {
    var k := (|matching| + pageSize - 1) / pageSize;
    CeilingCovers(|matching|, pageSize);
    FirstPagesArePrefix(matching, k, pageSize);
    assert matching[..|matching|] == matching;
    assert Paginate(matching, 0, pageSize).value.totalPages == k;
  }

  /** k pages have room for k times the page size. */
  lemma {:induction false} FirstPagesHaveRoom(matching: seq<Entry>, k: nat, pageSize: nat)
    ensures FirstPages(matching, k, pageSize).Some? ==> |FirstPages(matching, k, pageSize).value| <= k * pageSize
    decreases k
  {
    if k > 0 {
      FirstPagesHaveRoom(matching, k - 1, pageSize);
      OnePageMore(k - 1, pageSize);
    }
  }

  /**
   * Reading pages 0 to total_pages - 1 yields every match exactly once, in order, if and only if the page size is not
   * zero and the number of matches and the page size add up to a u32. Otherwise the first page panics already, or the
   * truncated total announces too few pages.
   */
  lemma PagesConcatenateExactly(matching: seq<Entry>, pageSize: nat)
    ensures PagesAre(matching, pageSize, matching) <==> 0 < pageSize && |matching| + pageSize < U32
  {
    if 0 < pageSize && |matching| + pageSize < U32 {
      PagesConcatenateToAll(matching, pageSize);
    } else if Paginate(matching, 0, pageSize).Some? {
      var k := Paginate(matching, 0, pageSize).value.totalPages;
      FirstPagesHaveRoom(matching, k, pageSize);
      assert k * pageSize <= |matching| % U32 + pageSize - 1;
    }
  }

  lemma ValuesAreDistinct(rules: TextRules, c: Contents, order: seq<Id>)
    requires Consistent(rules, c) && Enumerates(order, c.entries)
    ensures NoDuplicates(Values(order, c.entries))
    ensures forall e :: e in Values(order, c.entries) <==> e.stateId in c.entries && c.entries[e.stateId] == e
  {
    hide Inverts;
    var values := Values(order, c.entries);
    forall i, j | 0 <= i < j < |values| ensures values[i] != values[j] {
      assert values[i].stateId == order[i] && values[j].stateId == order[j];
    }
    forall e ensures e in values <==> e.stateId in c.entries && c.entries[e.stateId] == e {
      if e in values {
        var i :| 0 <= i < |values| && values[i] == e;
        assert order[i] in c.entries;
      }
      if e.stateId in c.entries && c.entries[e.stateId] == e {
        var i :| 0 <= i < |order| && order[i] == e.stateId;
        assert values[i] == e;
      }
    }
  }

  lemma {:induction false} FilterKeepsDistinct(s: seq<Entry>, p: Entry -> bool)
    requires NoDuplicates(s)
    ensures NoDuplicates(Filter(s, p))
    decreases |s|
  {
    if s != [] {
      FilterKeepsDistinct(s[1..], p);
      FilterSelects(s[1..], p, s[0]);
      assert s[0] !in s[1..];
      var rest := Filter(s[1..], p);
      forall i, j | 0 <= i < j < |[s[0]] + rest| && s[0] !in rest ensures ([s[0]] + rest)[i] != ([s[0]] + rest)[j] {
        assert ([s[0]] + rest)[j] == rest[j - 1];
      }
    }
  }

  lemma {:induction false} DistinctMeansOnce(s: seq<Entry>, x: Entry)
    requires NoDuplicates(s)
    ensures multiset(s)[x] <= 1
    decreases |s|
  {
    if s != [] {
      DistinctMeansOnce(s[1..], x);
      assert s == [s[0]] + s[1..];
      assert s[0] !in s[1..];
    }
  }

  lemma {:induction false} OnceMeansDistinct(s: seq<Entry>)
    requires forall x :: multiset(s)[x] <= 1
    ensures NoDuplicates(s)
    decreases |s|
  {
    if s != [] {
      var rest := s[1..];
      assert s == [s[0]] + rest;
      forall x ensures multiset(rest)[x] <= 1 && (x == s[0] ==> x !in rest) {
        assert multiset(s)[x] == (if x == s[0] then 1 else 0) + multiset(rest)[x];
      }
      OnceMeansDistinct(rest);
      forall i, j | 0 <= i < j < |s| ensures s[i] != s[j] {
        assert s[j] == rest[j - 1] && rest[j - 1] in rest;
        assert i > 0 ==> s[i] == rest[i - 1];
      }
    }
  }

  lemma SameBagDistinct(s: seq<Entry>, t: seq<Entry>)
    requires NoDuplicates(s) && multiset(s) == multiset(t)
    ensures NoDuplicates(t)
  {
    forall x ensures multiset(t)[x] <= 1 {
      DistinctMeansOnce(s, x);
    }
    OnceMeansDistinct(t);
  }

  lemma SameMembers(s: seq<Entry>, t: seq<Entry>)
    requires multiset(s) == multiset(t)
    ensures forall e :: e in s <==> e in t
  {
    forall e ensures e in s <==> e in t {
      assert e in multiset(s) <==> e in multiset(t);
    }
  }

  /**
   * What all the pages of a search add up to, after any run of indexing and removing: every entry that matches the
   * query, each exactly once, in the order asked for, if and only if the page arithmetic fits in a u32.
   */
  lemma AllPagesAreAllMatches(rules: TextRules, ops: seq<Op>, q: Query, order: seq<Id>)
    requires Enumerates(order, Run(rules, Contents(map[], map[], map[]), ops).entries)
    ensures
      var entries := PlainRun(map[], ops);
      Run(rules, Contents(map[], map[], map[]), ops).entries == entries &&
      var found := SortBy(q, Scan(rules, q, order, entries));
      && (PagesAre(found, q.pageSize, found) <==> 0 < q.pageSize && |found| + q.pageSize < U32)
      && NoDuplicates(found) && IsSorted(q, found)
      && (forall e ::
            e in found <==>
              && e.stateId in entries && entries[e.stateId] == e
              && (q.query.Some? ==> exists w :: w in Tokenize(rules, q.query.value) && w in Tokenize(rules, e.title))
              && (q.tags.Some? ==> forall t :: t in q.tags.value ==> t in e.tags)
              && (q.createdAfter.Some? ==> q.createdAfter.value <= e.createdAt)
              && (q.createdBefore.Some? ==> e.createdAt <= q.createdBefore.value))
  {
    var start := Contents(map[], map[], map[]);
    RunKeepsConsistent(rules, start, ops);
    var c := Run(rules, start, ops);
    ScanIsExact(rules, c, q, order);
    hide Run, PlainRun, Consistent, Scan, Tokenize, PagesAre, Paginate, IsSorted, Enumerates, SortBy;
    var scan := Scan(rules, q, order, c.entries);
    SortBySorts(q, scan);
    SameBagDistinct(scan, SortBy(q, scan));
    SameMembers(scan, SortBy(q, scan));
    PagesConcatenateExactly(SortBy(q, scan), q.pageSize);
  }

  lemma ScanIsExact(rules: TextRules, c: Contents, q: Query, order: seq<Id>)
    requires Consistent(rules, c) && Enumerates(order, c.entries)
    ensures
      var scan := Scan(rules, q, order, c.entries);
      && NoDuplicates(scan)
      && forall e :: e in scan <==> e.stateId in c.entries && c.entries[e.stateId] == e && Matches(rules, q, e)
  {
    var values := Values(order, c.entries);
    ValuesAreDistinct(rules, c, order);
    hide Consistent, Matches;
    FilterKeepsDistinct(values, ByQuery(rules, q));
    forall e ensures e in Scan(rules, q, order, c.entries) <==> e in values && Matches(rules, q, e) {
      FilterSelects(values, ByQuery(rules, q), e);
    }
  }

  /**
   * When `search` panics instead of answering, with fewer than 2 to the 32nd matches: with a zero page size, when
   * matches and page size do not add up to a u32, or on a page behind the end.
   */
  lemma PanicsExactly(matching: seq<Entry>, page: nat, pageSize: nat)
    requires |matching| < U32
    ensures
      Paginate(matching, page, pageSize) == None
      <==> pageSize == 0 || |matching| + pageSize >= U32 || page * pageSize > |matching|
  {
  }

  lemma MatchesBySharedWord(rules: TextRules, q: Query, e: Entry)
    requires q.query.Some?
    ensures
      MatchesText(rules, q, e) <==>
        exists w :: w in SetOf(Tokenize(rules, q.query.value)) && w in SetOf(Tokenize(rules, e.title))
  {
    hide Tokenize;
    assert forall w :: w in SetOf(Tokenize(rules, q.query.value)) <==> w in Tokenize(rules, q.query.value);
    assert forall w :: w in SetOf(Tokenize(rules, e.title)) <==> w in Tokenize(rules, e.title);
  }

  class StateSearchIndex {
    const rules: TextRules
    var entries: map<Id, Entry>
    var labelIndex: Inverted
    var tagIndex: Inverted

    function Value(): Contents
      reads this
    {
      Contents(entries, labelIndex, tagIndex)
    }

    ghost predicate Valid()
      reads this
    {
      Consistent(rules, Value())
    }

    constructor (rules: TextRules)
      ensures Valid() && Value() == Contents(map[], map[], map[]) && this.rules == rules
    {
      this.rules := rules;
      this.entries := map[];
      this.labelIndex := map[];
      this.tagIndex := map[];
    }

    /** The loop with which `remove_state` takes an identifier out of an inverted index. */
    static method WithdrawAll(index: Inverted, id: Id, keys: seq<string>) returns (after: Inverted)
      ensures after == Withdraw(index, id, keys)
    {
      after := index;
      for i := 0 to |keys|
        invariant Withdraw(after, id, keys[i..]) == Withdraw(index, id, keys)
      {
        assert keys[i..][0] == keys[i] && keys[i..][1..] == keys[i + 1..];
        if keys[i] in after {
          var ids := after[keys[i]] - {id};
          after := if ids == {} then after - {keys[i]} else after[keys[i] := ids];
        }
      }
    }

    method RemoveState(id: Id)
      requires Valid()
      modifies this
      ensures Valid() && Value() == Removed(rules, old(Value()), id)
    {
      RemovalKeepsConsistent(rules, Value(), id);
      hide Consistent, Tokenize;
      if id in entries {
        var entry := entries[id];
        var words := Tokenize(rules, entry.title);
        labelIndex := WithdrawAll(labelIndex, id, words);
        tagIndex := WithdrawAll(tagIndex, id, entry.tags);
        entries := entries - {id};
      }
    }

    method IndexState(entry: Entry)
      requires Valid()
      modifies this
      ensures Valid() && Value() == Indexed(rules, old(Value()), entry)
    {
      IndexingKeepsConsistent(rules, Value(), entry);
      hide Consistent, Tokenize, Removed;
      var id := entry.stateId;
      RemoveState(id);
      ghost var r := Value();
      entries := entries[id := entry];
      var words := Tokenize(rules, entry.title);
      for i := 0 to |words|
        invariant entries == r.entries[id := entry] && tagIndex == r.tags
        invariant Insert(labelIndex, id, words[i..]) == Insert(r.labels, id, words)
      {
        assert words[i..][0] == words[i] && words[i..][1..] == words[i + 1..];
        labelIndex := labelIndex[words[i] := Posting(labelIndex, words[i]) + {id}];
      }
      for i := 0 to |entry.tags|
        invariant entries == r.entries[id := entry] && labelIndex == Insert(r.labels, id, words)
        invariant Insert(tagIndex, id, entry.tags[i..]) == Insert(r.tags, id, entry.tags)
      {
        var tag := entry.tags[i];
        assert entry.tags[i..][0] == tag && entry.tags[i..][1..] == entry.tags[i + 1..];
        tagIndex := tagIndex[tag := Posting(tagIndex, tag) + {id}];
      }
    }

    /** `order` is the order in which the hash map of entries happens to be traversed. None: the search panics. */
    method Search(q: Query, order: seq<Id>) returns (result: Option<SearchResult>)
      requires Valid() && Enumerates(order, entries)
      ensures result == Paginate(SortBy(q, Scan(rules, q, order, entries)), q.page, q.pageSize)
    {
      StagesAreTheScan(rules, q, Value(), order);
      hide Consistent, SortBy, Scan, Paginate;
      var all := Values(order, entries);
      var matching := FilterText(q, all);
      SwitchedOff(matching, q.tags.Some?, ByIndexedTags(tagIndex, q));
      if q.tags.Some? {
        matching := Filter(matching, ByIndexedTags(tagIndex, q));
      }
      SwitchedOff(matching, q.createdAfter.Some?, After(q));
      if q.createdAfter.Some? {
        matching := Filter(matching, After(q));
      }
      SwitchedOff(matching, q.createdBefore.Some?, Before(q));
      if q.createdBefore.Some? {
        matching := Filter(matching, Before(q));
      }
      matching := SortBy(q, matching);
      result := Paginate(matching, q.page, q.pageSize);
    }

    /** The first stage of `search`, which compares the words of the query with those of every entry. */
    method FilterText(q: Query, all: seq<Entry>) returns (matching: seq<Entry>)
      ensures matching == Filter(all, ByText(rules, q))
    {
      hide Tokenize, SetOf;
      if q.query == None {
        SwitchedOff(all, false, ByText(rules, q));
        return all;
      }
      hide MatchesText;
      var queryWords := SetOf(Tokenize(rules, q.query.value));
      matching := [];
      for i := 0 to |all|
        invariant matching + Filter(all[i..], ByText(rules, q)) == Filter(all, ByText(rules, q))
      {
        var entry := all[i];
        assert all[i..][0] == entry && all[i..][1..] == all[i + 1..];
        var entryWords := SetOf(Tokenize(rules, entry.title));
        MatchesBySharedWord(rules, q, entry);
        if exists w :: w in queryWords && w in entryWords {
          matching := matching + [entry];
        }
      }
      assert all[|all|..] == [];
    }
  }
}
