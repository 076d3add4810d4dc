/** `MediaService`: media ids from a rolling 64-bit string hash, the paging
    query over the media table, and the edits of the configured directory
    lists. */
module MediaServices {

  import opened Wrappers
  import opened JavaValues
  import opened JavaStrings
  import opened JavaLists
  import opened Columns
  import opened Statements
  import opened JdbcRows
  import opened JdbcTables
  import opened MediaRows
  import opened MediaTables
  import opened ConfigFields
  import opened MediaServiceConfigurations
  import opened FileWalkerUtils

  // ---- the string hash ----

  const HASH_SEED: int := 1125899906842597

  /** The exception `new File(null)` throws. */
  const NULL_POINTER: string := "java.lang.NullPointerException"

  /** `hash(s)`: start from the seed and, for each character in turn,
      multiply by 31 and add the character, in Java `long` arithmetic. */
  function HashOf(s: string): (h: int)
    ensures -TWO_64 / 2 <= h < TWO_64 / 2
  {
    if |s| == 0 then HASH_SEED
    else WrapLong(31 * HashOf(s[..|s| - 1]) + s[|s| - 1] as int)
  }

  /** The loop of `hash`. */
  method Hash(s: string) returns (h: int)
    ensures h == HashOf(s)
  {
    h := HASH_SEED;
    var i := 0;
    while i < |s|
      invariant 0 <= i <= |s|
      invariant h == HashOf(s[..i])
    {
      assert s[..i + 1][..i] == s[..i];
      h := WrapLong(31 * h + s[i] as int);
      i := i + 1;
    }
    assert s[..i] == s;
  }

  /** The hash of the empty string is the seed. */
  lemma HashEmpty()
    ensures HashOf("") == 1125899906842597
  {
  }

  /** Appending a character: `hash(s + c) = 31 * hash(s) + c`, wrapped. */
  lemma HashAppend(s: string, c: char)
    ensures HashOf(s + [c]) == WrapLong(31 * HashOf(s) + c as int)
  {
    assert (s + [c])[..|s|] == s;
  }

  /** Values congruent modulo 2^64 wrap to the same `long`. */
  lemma WrapLongCongruent(a: int, b: int)
    requires (a - b) % TWO_64 == 0
    ensures WrapLong(a) == WrapLong(b)
  {
    var k := (a - b) / TWO_64;
    assert a == b + TWO_64 * k;
    assert a % TWO_64 == b % TWO_64;
  }

  /** Wrapping in the middle of `m * x + c` changes nothing: `long`
      arithmetic is arithmetic modulo 2^64. */
  lemma WrapLongStep(x: int, m: int, c: int)
    ensures WrapLong(m * WrapLong(x) + c) == WrapLong(m * x + c)
  {
    var w := WrapLong(x);
    var k := (x - w) / TWO_64;
    assert x - w == TWO_64 * k;
    assert (m * x + c) - (m * w + c) == m * (x - w);
    assert m * (x - w) == TWO_64 * (m * k);
    WrapLongCongruent(m * x + c, m * w + c);
  }

  function Pow31(n: nat): (r: nat)
    ensures r >= 1
  {
    if n == 0 then 1 else 31 * Pow31(n - 1)
  }

  /** The characters weighted by descending powers of 31: the first
      character by 31^(n-1), the last by 1. */
  function Weighted(s: string): int
  {
    if s == [] then 0 else (s[0] as int) * Pow31(|s| - 1) + Weighted(s[1..])
  }

  lemma {:induction false} WeightedAppend(s: string, c: char)
    ensures Weighted(s + [c]) == 31 * Weighted(s) + c as int
  {
    if s == [] {
      assert Weighted([c]) == c as int * Pow31(0) + Weighted([]);
    } else {
      assert (s + [c])[1..] == s[1..] + [c];
      WeightedAppend(s[1..], c);
      assert (s[0] as int) * Pow31(|s|) == 31 * ((s[0] as int) * Pow31(|s| - 1));
    }
  }

  /** The closed form of the hash: the polynomial
      `seed * 31^n + s[0] * 31^(n-1) + … + s[n-1]`, wrapped once into a
      `long`. */
  lemma {:induction false} HashClosedForm(s: string)
    ensures HashOf(s) == WrapLong(HASH_SEED * Pow31(|s|) + Weighted(s))
  {
    if |s| > 0 {
      var p := s[..|s| - 1];
      var c := s[|s| - 1];
      assert s == p + [c];
      HashClosedForm(p);
      WeightedAppend(p, c);
      WrapLongStep(HASH_SEED * Pow31(|p|) + Weighted(p), 31, c as int);
      assert 31 * (HASH_SEED * Pow31(|p|)) == HASH_SEED * Pow31(|s|);
    }
  }

  /** The hash of `t` continued from hash `h`. */
  function HashFrom(h: int, t: string): int
  {
    if |t| == 0 then h else WrapLong(31 * HashFrom(h, t[..|t| - 1]) + t[|t| - 1] as int)
  }

  /** The hash of a concatenation continues the hash of its first part:
      strings with equal hashes keep equal hashes under any common
      suffix. */
  lemma {:induction false} HashConcat(s: string, t: string)
    ensures HashOf(s + t) == HashFrom(HashOf(s), t)
  {
    if |t| == 0 {
      assert s + t == s;
    } else {
      var st := s + t;
      assert st[..|st| - 1] == s + t[..|t| - 1];
      assert st[|st| - 1] == t[|t| - 1];
      HashConcat(s, t[..|t| - 1]);
    }
  }

  /** Ids are not unique per path: `Aa` and `BB` hash alike after any
      prefix and before any suffix, so two such files get the same id. */
  lemma HashCollision(p: string, q: string)
    ensures HashOf(p + "Aa" + q) == HashOf(p + "BB" + q)
  {
    PairCollides(p);
    HashConcat(p + "Aa", q);
    HashConcat(p + "BB", q);
  }

  /** `31 * 'A' + 'a' == 31 * 'B' + 'B'`, after any prefix. */
  lemma PairCollides(p: string)
    ensures HashOf(p + "Aa") == HashOf(p + "BB")
  {
    HashTwo(p, 'A', 'a');
    HashTwo(p, 'B', 'B');
    assert ['A', 'a'] == "Aa" && ['B', 'B'] == "BB";
  }

  /** Appending two characters: `31^2 * hash(s) + 31 * a + b`, wrapped. */
  lemma HashTwo(p: string, a: char, b: char)
    ensures HashOf(p + [a, b]) == WrapLong(961 * HashOf(p) + 31 * (a as int) + b as int)
  {
    var h := HashOf(p);
    HashAppend(p, a);
    HashAppend(p + [a], b);
    assert p + [a] + [b] == p + [a, b];
    WrapLongStep(31 * h + a as int, 31, b as int);
    assert 31 * (31 * h + a as int) + b as int == 961 * h + 31 * (a as int) + b as int;
  }

  // ---- the paging query ----

  const PAGINATION_ENTRIES_PER_PAGE: int := 60
  const VIDEO_CLAUSE: string := " file NOT LIKE '%.mp4'"

  /** The `orderBy` switch: `name` sorts by path, then time; any other
      value by time, then path. */
  function SortColumns(orderBy: string): (r: (string, string))
    ensures r.0 != r.1 && {r.0, r.1} == {"file", "last_edited"}
    ensures r.0 == "file" <==> orderBy == "name"
  {
    if orderBy == "name" then ("file", "last_edited") else ("last_edited", "file")
  }

  function Direction(asc: bool): (r: string)
    ensures r == "ASC" <==> asc
    ensures r == "DESC" <==> !asc
  {
    if asc then "ASC" else "DESC"
  }

  /** The hashes of the disabled directories, in list order. */
  function DisabledHashes(dirs: seq<string>): (r: seq<int>)
    ensures |r| == |dirs| && forall i :: 0 <= i < |dirs| ==> r[i] == HashOf(dirs[i])
  {
    seq(|dirs|, i requires 0 <= i < |dirs| => HashOf(dirs[i]))
  }

  function Decimals(hashes: seq<int>): (r: seq<string>)
    ensures |r| == |hashes| && forall i :: 0 <= i < |hashes| ==> r[i] == Decimal(hashes[i])
  {
    seq(|hashes|, i requires 0 <= i < |hashes| => Decimal(hashes[i]))
  }

  /** `buildWhereClauseFromDisabledMedia`: nothing without disabled
      directories, otherwise `base_path_hash NOT IN (h1, h2, …)`. */
  function DisabledClause(hashes: seq<int>): string
  {
    if |hashes| == 0 then ""
    else "base_path_hash NOT IN (" + Join(Decimals(hashes), ", ") + ")"
  }

  /** The clause excluding videos, empty when they are included. */
  function VideoClause(includeVideos: bool): (r: string)
    ensures r == "" <==> includeVideos
  {
    if includeVideos then "" else VIDEO_CLAUSE
  }

  /** The `WHERE` part: the non-empty clauses joined by ` AND `, and nothing
      when both are empty. */
  function WhereSql(disabled: string, video: string): string
  {
    var clauses := (if disabled != "" then [disabled] else []) + (if video != "" then [video] else []);
    var joined := Join(clauses, " AND ");
    if |joined| > 0 then " WHERE " + joined else ""
  }

  /** The ordering and paging tail of the query. */
  function OrderSql(orderBy: string, asc: bool): string
  {
    var (primary, secondary) := SortColumns(orderBy);
    var dir := Direction(asc);
    " ORDER BY " + primary + " " + dir + ", " + secondary + " " + dir + " LIMIT ? OFFSET ?"
  }

  /** The prepared paging query: its text and its two bound integers. */
  datatype PageQuery = PageQuery(sql: string, limit: int, offset: int)

  /** `getMediaIds`' statement for `page`, with the hashes of the disabled
      directories. */
  function MediaIdsQuery(page: int, orderBy: string, asc: bool, includeVideos: bool, hashes: seq<int>): PageQuery
  {
    PageQuery(
      "SELECT id FROM media" + WhereSql(DisabledClause(hashes), VideoClause(includeVideos)) + OrderSql(orderBy, asc),
      PAGINATION_ENTRIES_PER_PAGE,
      WrapInt(page * PAGINATION_ENTRIES_PER_PAGE))
  }

  /** The where-clause joiner as `getMediaIds` fills it. */
  method BuildWhereClause(disabled: string, includeVideos: bool) returns (where: string)
    ensures where == WhereSql(disabled, VideoClause(includeVideos))
  {
    var video := if includeVideos then "" else VIDEO_CLAUSE;
    var joiner: seq<string> := [];
    if disabled != "" {
      joiner := joiner + [disabled];
    }
    if video != "" {
      joiner := joiner + [video];
    }
    var joined := Join(joiner, " AND ");
    where := if |joined| > 0 then " WHERE " + joined else "";
  }

  /** `WHERE` appears exactly when some clause is non-empty; one clause
      stands alone, two are joined by ` AND `. */
  lemma WhereCases(disabled: string, video: string)
    ensures WhereSql(disabled, video) != "" <==> disabled != "" || video != ""
    ensures disabled != "" && video == "" ==> WhereSql(disabled, video) == " WHERE " + disabled
    ensures disabled == "" && video != "" ==> WhereSql(disabled, video) == " WHERE " + video
    ensures disabled != "" && video != "" ==> WhereSql(disabled, video) == " WHERE " + disabled + " AND " + video
  {
    if disabled != "" && video != "" {
      assert [disabled, video][1..] == [video];
      assert Join([disabled, video], " AND ") == disabled + " AND " + video;
      assert " WHERE " + ((disabled + " AND ") + video) == (" WHERE " + (disabled + " AND ")) + video;
      assert " WHERE " + (disabled + " AND ") == (" WHERE " + disabled) + " AND ";
    }
  }

  /** A string ends with anything appended to it. */
  lemma EndsWithAppended(a: string, b: string)
    ensures EndsWith(a + b, b)
  {
    assert (a + b)[|a + b| - |b|..] == b;
  }

  /** The disabled clause is empty exactly when no directory is disabled;
      otherwise it is framed as `base_path_hash NOT IN (…)`. */
  lemma DisabledClauseShape(hashes: seq<int>)
    ensures DisabledClause(hashes) == "" <==> |hashes| == 0
    ensures |hashes| > 0 ==>
              StartsWith(DisabledClause(hashes), "base_path_hash NOT IN (")
              && EndsWith(DisabledClause(hashes), ")")
  {
    if |hashes| > 0 {
      var joined := Join(Decimals(hashes), ", ");
      var head := "base_path_hash NOT IN (" + joined;
      assert DisabledClause(hashes) == head + ")";
      assert (head + ")")[..|"base_path_hash NOT IN ("|] == "base_path_hash NOT IN (";
      EndsWithAppended(head, ")");
    }
  }

  /** The disabled clause lists one number per directory, separated by
      commas: it holds one comma fewer than there are directories. */
  lemma DisabledClauseCommas(hashes: seq<int>)
    requires |hashes| > 0
    ensures Count(DisabledClause(hashes), ',') == |hashes| - 1
  {
    var parts := Decimals(hashes);
    DecimalsCommaFree(hashes);
    CountAllNone(parts, ',');
    CountJoinSeparators(parts, ", ", ',');
    assert Count(", ", ',') == 1;
    var pre := "base_path_hash NOT IN (";
    assert ',' !in pre by {
      CommaFreeLiteral(pre);
    }
    CountFramed(pre, Join(parts, ", "), ")", ',');
  }

  /** No rendered hash holds a comma. */
  lemma DecimalsCommaFree(hashes: seq<int>)
    ensures forall k :: 0 <= k < |hashes| ==> ',' !in Decimals(hashes)[k]
  {
    forall k | 0 <= k < |hashes|
      ensures ',' !in Decimals(hashes)[k]
    {
      DecimalHasNo(hashes[k], ',');
    }
  }

  /** The prefix of the disabled clause holds no comma. */
  lemma CommaFreeLiteral(pre: string)
    requires pre == "base_path_hash NOT IN ("
    ensures ',' !in pre
  {
    assert forall i :: 0 <= i < |pre| ==> pre[i] != ',';
  }

  /** Framing a string in text without `c` adds no `c`. */
  lemma CountFramed(pre: string, mid: string, post: string, c: char)
    requires c !in pre && c !in post
    ensures Count(pre + mid + post, c) == Count(mid, c)
  {
    CountConcat(pre, mid, c);
    CountConcat(pre + mid, post, c);
    CountAbsent(pre, c);
    CountAbsent(post, c);
  }

  lemma {:induction false} CountAllNone(parts: seq<string>, c: char)
    requires forall k :: 0 <= k < |parts| ==> c !in parts[k]
    ensures CountAll(parts, c) == 0
  {
    if parts != [] {
      CountAbsent(parts[0], c);
      CountAllNone(parts[1..], c);
    }
  }

  /** Page `p` asks for 60 rows starting at row 60·p; the offset is an `int`
      product and wraps for pages past 35791394. */
  lemma PagingWindow(page: int, orderBy: string, asc: bool, includeVideos: bool, hashes: seq<int>)
    ensures MediaIdsQuery(page, orderBy, asc, includeVideos, hashes).limit == 60
    ensures 0 <= page <= 35791394 ==> MediaIdsQuery(page, orderBy, asc, includeVideos, hashes).offset == 60 * page
    ensures page == 35791395 ==> MediaIdsQuery(page, orderBy, asc, includeVideos, hashes).offset < 0
  {
  }

  /** The query ends with its ordering, both keys in the same direction,
      and its two placeholders. */
  lemma QueryOrdering(page: int, orderBy: string, asc: bool, includeVideos: bool, hashes: seq<int>)
    ensures var (primary, secondary) := SortColumns(orderBy);
            var dir := Direction(asc);
            EndsWith(MediaIdsQuery(page, orderBy, asc, includeVideos, hashes).sql,
                     " ORDER BY " + primary + " " + dir + ", " + secondary + " " + dir + " LIMIT ? OFFSET ?")
  {
    EndsWithAppended("SELECT id FROM media" + WhereSql(DisabledClause(hashes), VideoClause(includeVideos)),
                     OrderSql(orderBy, asc));
  }

  // ---- the page count ----

  /** `getPageCount`: `ceil(total / 60)`. The `double` quotient of an `int`
      by 60 is never close enough to an integer for rounding to move the
      ceiling, so integer arithmetic gives the same result. */
  function PageCount(total: nat): nat
  {
    (total + PAGINATION_ENTRIES_PER_PAGE - 1) / PAGINATION_ENTRIES_PER_PAGE
  }

  /** The page count is the ceiling of total / 60: page `p` holds at least
      one entry exactly when `p` is below the count. */
  lemma PageCountIsCeiling(total: nat, page: nat)
    ensures 60 * PageCount(total) >= total
    ensures PageCount(total) == 0 || 60 * (PageCount(total) - 1) < total
    ensures page < PageCount(total) <==> 60 * page < total
  {
  }

  // ---- the media table as the service changes it ----

  /** A media record whose base-path hash is `h`. */
  predicate UnderBase(rec: Record, h: int)
  {
    |rec| == 4 && rec[BASE_PATH_HASH] == Long(h)
  }

  /** The record `processFile` stores. */
  function MediaRecord(id: int, file: string, lastModified: int, basePathHash: int): Record
  {
    [Long(id), Str(file), Timestamp(lastModified), Long(basePathHash)]
  }

  /** What `deleteMediaWhereBasePath` leaves: the records under other base
      paths, unchanged. */
  function WithoutBase(store: Store, h: int): (r: Store)
    ensures forall k :: k in r <==> k in store && !UnderBase(store[k], h)
    ensures forall k :: k in r ==> r[k] == store[k]
  {
    map k | k in store && !UnderBase(store[k], h) :: store[k]
  }

  /** The keys among `keys`, in their order, of records under base `h`. */
  function MatchingKeys(store: Store, keys: seq<int>, h: int): (r: seq<int>)
    ensures forall x :: x in r <==> x in keys && x in store && UnderBase(store[x], h)
    ensures forall j :: 0 <= j < |r| ==> r[j] in store && UnderBase(store[r[j]], h)
  {
    if keys == [] then []
    else (if keys[0] in store && UnderBase(store[keys[0]], h) then [keys[0]] else [])
         + MatchingKeys(store, keys[1..], h)
  }

  /** The result of `SELECT * FROM media WHERE base_path_hash = ?`, in the
      order of `keys`. */
  function MatchingRows(store: Store, keys: seq<int>, h: int): (r: seq<ResultRow>)
    ensures var mk := MatchingKeys(store, keys, h);
            |r| == |mk| && forall j :: 0 <= j < |mk| ==> r[j] == ResultOf(MEDIA_FIELDS, store[mk[j]])
  {
    var mk := MatchingKeys(store, keys, h);
    seq(|mk|, j requires 0 <= j < |mk| => ResultOf(MEDIA_FIELDS, store[mk[j]]))
  }

  /** Hydrating a stored media record gives back its identity-mapped
      columns, each one that holds a value of its field's type; any other
      leaves its field null. */
  lemma HydratedMediaRecord(rec: Record, parse: TimestampParser)
    requires |rec| == 4
    ensures var vs := Hydrate(MEDIA_FIELDS, ResultOf(MEDIA_FIELDS, rec), parse);
            && vs[ID] == (if rec[ID].Long? then rec[ID] else Null)
            && vs[FILE] == (if rec[FILE].Str? then rec[FILE] else Null)
            && vs[BASE_PATH_HASH] == (if rec[BASE_PATH_HASH].Long? then rec[BASE_PATH_HASH] else Null)
  {
    MediaEntityShape();
    HydratedIdentity(MEDIA_FIELDS, rec, parse, ID);
    HydratedIdentity(MEDIA_FIELDS, rec, parse, FILE);
    HydratedIdentity(MEDIA_FIELDS, rec, parse, BASE_PATH_HASH);
  }

  /** The rows `deleteMediaWhereBasePath` selects hydrate to rows whose ids
      are the matching keys, in order. */
  lemma MatchingRowsIds(store: Store, keys: seq<int>, h: int, parse: TimestampParser)
    requires forall k :: k in store ==> |store[k]| == 4 && store[k][ID] == Long(k)
    ensures var rows := MatchingRows(store, keys, h);
            var mk := MatchingKeys(store, keys, h);
            forall j :: 0 <= j < |rows| ==>
              |Hydrate(MEDIA_FIELDS, rows[j], parse)| == 4 && Hydrate(MEDIA_FIELDS, rows[j], parse)[ID] == Long(mk[j])
  {
    var rows := MatchingRows(store, keys, h);
    var mk := MatchingKeys(store, keys, h);
    forall j | 0 <= j < |rows|
      ensures |Hydrate(MEDIA_FIELDS, rows[j], parse)| == 4 && Hydrate(MEDIA_FIELDS, rows[j], parse)[ID] == Long(mk[j])
    {
      HydratedMediaRecord(store[mk[j]], parse);
    }
  }

  /** Removing the matching keys of a key list that covers the store
      leaves exactly the records under other base paths. */
  lemma RemoveMatching(store: Store, keys: seq<int>, h: int, after: Store)
    requires forall k :: k in store ==> k in keys
    requires forall k :: k in after <==> k in store && k !in MatchingKeys(store, keys, h)
    requires forall k :: k in after ==> after[k] == store[k]
    ensures after == WithoutBase(store, h)
  {
    var w := WithoutBase(store, h);
    forall k | k in after
      ensures k in w && after[k] == w[k]
    {
    }
    forall k | k in w
      ensures k in after
    {
      assert k !in MatchingKeys(store, keys, h);
    }
    assert after == w;
  }

  /** What the file system says about a directory to rescan: whether it
      exists, whether it is a directory, and what `Files.walk` visits in
      it. */
  datatype Listing = Listing(present: bool, isDirectory: bool, entries: seq<WalkEntry>)

  /** The walked entries `rescanMedia` processes. */
  function MediaEntries(entries: seq<WalkEntry>): seq<WalkEntry>
  {
    Walk(MEDIA_EXTENSIONS, entries)
  }

  /** Processing media files in turn, as the walker's single task does: each
      file is inserted under the hash of its path; the first file whose id
      is already taken fails, and its exception ends the task, so no later
      file is processed. */
  function Indexed(store: Store, basePathHash: int, files: seq<WalkEntry>): Store
    decreases |files|
  {
    if files == [] then store
    else
      var id := HashOf(files[0].path);
      if id in store then store
      else Indexed(store[id := MediaRecord(id, files[0].path, files[0].lastModified, basePathHash)], basePathHash, files[1..])
  }

  /** `rescanMedia(dir)`: drop the records under `dir`, then, when it is an
      existing directory, index its media files under the hash of `dir`. */
  function Rescanned(store: Store, dir: string, listing: Listing): Store
  {
    var cleared := WithoutBase(store, HashOf(dir));
    if !listing.present || !listing.isDirectory then cleared
    else Indexed(cleared, HashOf(dir), MediaEntries(listing.entries))
  }

  /** `rescanAllMedia`: rescan each configured directory in turn. */
  function RescannedAll(store: Store, dirs: seq<string>, fs: string -> Listing): Store
    decreases |dirs|
  {
    if dirs == [] then store else RescannedAll(Rescanned(store, dirs[0], fs(dirs[0])), dirs[1..], fs)
  }

  /** Indexing only adds: every record already there stays, unchanged; each
      new record is a media record of one of the files, keyed by the hash
      of its path and carrying the base-path hash. */
  lemma {:induction false} IndexedOnlyAdds(store: Store, basePathHash: int, files: seq<WalkEntry>)
    ensures var r := Indexed(store, basePathHash, files);
            && (forall k :: k in store ==> k in r && r[k] == store[k])
            && (forall k :: k in r && k !in store ==>
                  exists e :: e in files && k == HashOf(e.path)
                              && r[k] == MediaRecord(k, e.path, e.lastModified, basePathHash))
    decreases |files|
  {
    if files != [] {
      var id := HashOf(files[0].path);
      if id !in store {
        var next := store[id := MediaRecord(id, files[0].path, files[0].lastModified, basePathHash)];
        IndexedOnlyAdds(next, basePathHash, files[1..]);
        var r := Indexed(store, basePathHash, files);
        assert r == Indexed(next, basePathHash, files[1..]);
        forall k | k in r && k !in store
          ensures exists e :: e in files && k == HashOf(e.path)
                              && r[k] == MediaRecord(k, e.path, e.lastModified, basePathHash)
        {
          if k == id {
            assert files[0] in files;
          } else {
            var e :| e in files[1..] && k == HashOf(e.path)
                     && r[k] == MediaRecord(k, e.path, e.lastModified, basePathHash);
            assert e in files;
          }
        }
      }
    }
  }

  /** Files whose paths hash to distinct ids not yet in the table are all
      indexed. */
  lemma {:induction false} IndexedAll(store: Store, basePathHash: int, files: seq<WalkEntry>)
    requires forall i, j :: 0 <= i < j < |files| ==> HashOf(files[i].path) != HashOf(files[j].path)
    requires forall i :: 0 <= i < |files| ==> HashOf(files[i].path) !in store
    ensures forall i :: 0 <= i < |files| ==>
              HashOf(files[i].path) in Indexed(store, basePathHash, files)
              && Indexed(store, basePathHash, files)[HashOf(files[i].path)]
                 == MediaRecord(HashOf(files[i].path), files[i].path, files[i].lastModified, basePathHash)
    decreases |files|
  {
    if files != [] {
      var id := HashOf(files[0].path);
      var next := store[id := MediaRecord(id, files[0].path, files[0].lastModified, basePathHash)];
      forall i | 0 <= i < |files[1..]|
        ensures HashOf(files[1..][i].path) !in next
      {
        assert files[1..][i] == files[i + 1];
      }
      IndexedAll(next, basePathHash, files[1..]);
      IndexedOnlyAdds(next, basePathHash, files[1..]);
      forall i | 0 <= i < |files|
        ensures HashOf(files[i].path) in Indexed(store, basePathHash, files)
                && Indexed(store, basePathHash, files)[HashOf(files[i].path)]
                   == MediaRecord(HashOf(files[i].path), files[i].path, files[i].lastModified, basePathHash)
      {
        if i > 0 {
          assert files[1..][i - 1] == files[i];
        }
      }
    }
  }

  /** A file whose id collides with an earlier file's ends the indexing:
      it and every file after it are left out. */
  lemma CollisionStopsIndexing(store: Store, basePathHash: int, a: WalkEntry, b: WalkEntry, rest: seq<WalkEntry>)
    requires HashOf(a.path) == HashOf(b.path) && HashOf(a.path) !in store
    ensures Indexed(store, basePathHash, [a, b] + rest)
            == store[HashOf(a.path) := MediaRecord(HashOf(a.path), a.path, a.lastModified, basePathHash)]
  {
    assert ([a, b] + rest)[1..] == [b] + rest;
  }

  /** Rescanning a directory leaves every record under another base path as
      it was. */
  lemma RescanKeepsOtherBases(store: Store, dir: string, listing: Listing, k: int)
    requires k in store && !UnderBase(store[k], HashOf(dir))
    ensures k in Rescanned(store, dir, listing) && Rescanned(store, dir, listing)[k] == store[k]
  {
    IndexedOnlyAdds(WithoutBase(store, HashOf(dir)), HashOf(dir), MediaEntries(listing.entries));
  }

  /** After a rescan, every record under the directory comes from one of
      its media files, keyed by the hash of the file's path. */
  lemma RescannedUnderBase(store: Store, dir: string, listing: Listing, k: int)
    requires k in Rescanned(store, dir, listing) && UnderBase(Rescanned(store, dir, listing)[k], HashOf(dir))
    ensures exists e :: e in MediaEntries(listing.entries) && k == HashOf(e.path)
                        && Rescanned(store, dir, listing)[k] == MediaRecord(k, e.path, e.lastModified, HashOf(dir))
  {
    IndexedOnlyAdds(WithoutBase(store, HashOf(dir)), HashOf(dir), MediaEntries(listing.entries));
  }

  /** The records indexing adds are all under the base it indexes for, so
      dropping that base again gives back the table indexing started from,
      when that table had nothing under the base. */
  lemma WithoutIndexed(cleared: Store, h: int, files: seq<WalkEntry>)
    requires forall k :: k in cleared ==> !UnderBase(cleared[k], h)
    ensures WithoutBase(Indexed(cleared, h, files), h) == cleared
  {
    var r := Indexed(cleared, h, files);
    IndexedOnlyAdds(cleared, h, files);
    forall k | k in r && k !in cleared
      ensures UnderBase(r[k], h)
    {
      var e :| e in files && k == HashOf(e.path) && r[k] == MediaRecord(k, e.path, e.lastModified, h);
    }
    var w := WithoutBase(r, h);
    assert forall k :: k in w <==> k in cleared;
    assert forall k :: k in w ==> w[k] == cleared[k];
    assert w == cleared;
  }

  /** Rescanning a directory twice over the same listing is rescanning it
      once. */
  lemma RescanIdempotent(store: Store, dir: string, listing: Listing)
    ensures Rescanned(Rescanned(store, dir, listing), dir, listing) == Rescanned(store, dir, listing)
  {
    var h := HashOf(dir);
    var cleared := WithoutBase(store, h);
    if listing.present && listing.isDirectory {
      WithoutIndexed(cleared, h, MediaEntries(listing.entries));
    } else {
      assert WithoutBase(cleared, h) == cleared;
    }
  }

  /** Adding a directory and removing it again restores the list, unless it
      was listed already: then one copy stays. */
  lemma AddThenRemove(dirs: seq<string>, path: string)
    ensures path !in dirs ==> Removed(dirs + [path], path) == dirs
    ensures path in dirs ==> path in Removed(dirs + [path], path)
  {
    var xs := dirs + [path];
    if path !in dirs {
      assert xs[..|dirs|] == dirs;
      IndexOfIsFirst(xs, path, |dirs|);
      assert xs[|dirs| + 1..] == [];
    } else {
      RemovedSpec(xs, path);
      assert multiset(xs) == multiset(dirs) + multiset{path};
      assert multiset(dirs)[path] >= 1;
      assert multiset(Removed(xs, path))[path] >= 1;
    }
  }

  /** The paging query `getMediaIds` prepares: the where clause through the
      joiner, then the ordering and the two bound integers. */
  method BuildMediaIdsQuery(page: int, orderBy: string, asc: bool, includeVideos: bool, hashes: seq<int>)
    returns (query: PageQuery)
    ensures query == MediaIdsQuery(page, orderBy, asc, includeVideos, hashes)
  {
    var where := BuildWhereClause(DisabledClause(hashes), includeVideos);
    assert "SELECT id FROM " + MEDIA_TABLE == "SELECT id FROM media";
    var sql := "SELECT id FROM " + MEDIA_TABLE + where + OrderSql(orderBy, asc);
    query := PageQuery(sql, PAGINATION_ENTRIES_PER_PAGE, WrapInt(page * PAGINATION_ENTRIES_PER_PAGE));
  }

  /** `.map(MediaRow::getId)`: the id of each row, in order. */
  method IdsOf(rows: seq<Row>) returns (ids: seq<Value>)
    requires forall j :: 0 <= j < |rows| ==> |rows[j].values| == |MEDIA_FIELDS|
    ensures |ids| == |rows| && forall j :: 0 <= j < |rows| ==> ids[j] == rows[j].values[ID]
  {
    ids := [];
    var i := 0;
    while i < |rows|
      invariant 0 <= i <= |rows|
      invariant |ids| == i && forall j :: 0 <= j < i ==> ids[j] == rows[j].values[ID]
    {
      ids := ids + [rows[i].values[ID]];
      i := i + 1;
    }
  }

  /** `MediaService`: the configuration and the media table it works on. */
  class MediaService {
    const configuration: Configuration
    const mediaTable: Table

    ghost predicate Valid()
      reads this, configuration, mediaTable
    {
      && configuration.Valid() && mediaTable.Valid()
      && mediaTable.entity == MEDIA_ENTITY && mediaTable.pkIndex == ID
    }

    /** The constructor, given the loaded configuration and the table. The
        rescan on startup is `RescanAllMedia`. */
    constructor (configuration: Configuration, mediaTable: Table)
      requires configuration.Valid() && mediaTable.Valid()
      requires mediaTable.entity == MEDIA_ENTITY && mediaTable.pkIndex == ID
      ensures Valid() && this.configuration == configuration && this.mediaTable == mediaTable
    {
      this.configuration := configuration;
      this.mediaTable := mediaTable;
    }

    /** The loop of `deleteMediaWhereBasePath`: delete each selected row,
        whose id is the matching entry of `ids`. */
    method DeleteRows(rows: seq<Row>, ghost ids: seq<int>)
      requires Valid() && |rows| == |ids|
      requires forall j :: 0 <= j < |rows| ==>
                 rows[j].Valid() && rows[j].entity == MEDIA_ENTITY && rows[j].values[ID] == Long(ids[j])
      modifies mediaTable
      ensures Valid()
      ensures forall k :: k in mediaTable.store <==> k in old(mediaTable.store) && k !in ids
      ensures forall k :: k in mediaTable.store ==> mediaTable.store[k] == old(mediaTable.store)[k]
    {
      MediaEntityShape();
      var i := 0;
      while i < |rows|
        invariant 0 <= i <= |rows|
        invariant Valid()
        invariant forall k :: k in mediaTable.store <==> k in old(mediaTable.store) && k !in ids[..i]
        invariant forall k :: k in mediaTable.store ==> mediaTable.store[k] == old(mediaTable.store)[k]
      {
        DeleteEffect(MEDIA_ENTITY, rows[i].values, mediaTable.store, ids[i]);
        var _ := mediaTable.Delete(rows[i]);
        assert ids[..i + 1] == ids[..i] + [ids[i]];
        i := i + 1;
      }
      assert ids[..i] == ids;
    }

    /** `deleteMediaWhereBasePath`: select the records under the hash of the
        path, then delete them one by one. */
    method DeleteMediaWhereBasePath(basePath: string)
      requires Valid()
      modifies mediaTable
      ensures Valid() && mediaTable.store == WithoutBase(old(mediaTable.store), HashOf(basePath))
    {
      var h := Hash(basePath);
      var keys := KeysInOrder(mediaTable.store.Keys);
      ghost var start := mediaTable.store;
      ghost var mk := MatchingKeys(start, keys, h);
      var rows := mediaTable.GetByPreparedStatement((s: Store) => MatchingRows(s, keys, h));
      MatchingRowsIds(start, keys, h, mediaTable.parse);
      DeleteRows(rows, mk);
      RemoveMatching(start, keys, h, mediaTable.store);
    }

    /** The row `processFile` fills in, field by field through the
        setters. */
    static method NewMediaRow(id: int, file: string, lastModified: int, basePathHash: int) returns (row: Row)
      ensures fresh(row) && row.Valid() && row.entity == MEDIA_ENTITY
      ensures row.values == MediaRecord(id, file, lastModified, basePathHash) && Complete(row.values)
    {
      MediaEntityShape();
      row := new Row(MEDIA_ENTITY);
      SetFile(row, Some(file));
      SetId(row, Some(id));
      SetLastEdited(row, Some(lastModified));
      SetBasePathHash(row, Some(basePathHash));
    }

    /** `mediaTable.insert` of a fully set media row: it succeeds exactly
        when the row's id is free, and then stores the row under its id. */
    method InsertComplete(row: Row) returns (ok: bool)
      requires Valid() && row.Valid() && row.entity == MEDIA_ENTITY && Complete(row.values)
      modifies mediaTable
      ensures Valid()
      ensures ok <==> row.values[ID].n !in old(mediaTable.store)
      ensures ok ==> mediaTable.store == old(mediaTable.store)[row.values[ID].n := row.values]
      ensures !ok ==> mediaTable.store == old(mediaTable.store)
    {
      CompleteInsertOutcome(mediaTable.store, row.values);
      var inserted := mediaTable.Insert(row);
      ok := inserted.Ok?;
    }

    /** `processFile`: a new row with the path, its hash as id, the
        modification time and the base-path hash, inserted into the table.
        The insert fails, and changes nothing, when the id is taken. */
    method ProcessFile(basePathHash: int, file: string, lastModified: int) returns (r: Result<()>)
      requires Valid()
      modifies mediaTable
      ensures Valid()
      ensures HashOf(file) in old(mediaTable.store) ==>
                r == Err("Failed to insert media file into database: " + Decimal(HashOf(file)))
                && mediaTable.store == old(mediaTable.store)
      ensures HashOf(file) !in old(mediaTable.store) ==>
                r.Ok? && mediaTable.store
                         == old(mediaTable.store)[HashOf(file) := MediaRecord(HashOf(file), file, lastModified, basePathHash)]
    {
      var id := Hash(file);
      var row := NewMediaRow(id, file, lastModified, basePathHash);
      var ok := InsertComplete(row);
      if !ok {
        return Err("Failed to insert media file into database: " + Decimal(id));
      }
      r := Ok(());
    }

    /** The walker's task: process the media files in walk order,
        stopping at the first that fails. */
    method IndexFiles(basePathHash: int, files: seq<WalkEntry>)
      requires Valid()
      modifies mediaTable
      ensures Valid() && mediaTable.store == Indexed(old(mediaTable.store), basePathHash, files)
    {
      ghost var target := Indexed(mediaTable.store, basePathHash, files);
      var i := 0;
      var failed := false;
      while i < |files| && !failed
        invariant 0 <= i <= |files|
        invariant Valid()
        invariant !failed ==> Indexed(mediaTable.store, basePathHash, files[i..]) == target
        invariant failed ==> mediaTable.store == target
      {
        assert files[i..][0] == files[i] && files[i..][1..] == files[i + 1..];
        var r := ProcessFile(basePathHash, files[i].path, files[i].lastModified);
        failed := r.Err?;
        i := i + 1;
      }
    }

    /** `rescanMedia(dir)`: drop the directory's records; if it is an
        existing directory, process its media files in walk order, stopping
        at the first that fails. */
    method RescanMedia(dir: string, listing: Listing)
      requires Valid()
      modifies mediaTable
      ensures Valid() && mediaTable.store == Rescanned(old(mediaTable.store), dir, listing)
    {
      DeleteMediaWhereBasePath(dir);
      if !listing.present {
        return;
      } else if !listing.isDirectory {
        return;
      }
      var basePathHash := Hash(dir);
      var files := MediaEntries(listing.entries);
      IndexFiles(basePathHash, files);
    }

    /** `rescanAllMedia`: rescan each configured image directory in turn;
        when the setting is not a list of strings, index nothing. */
    method RescanAllMedia(fs: string -> Listing)
      requires Valid()
      modifies mediaTable
      ensures Valid()
      ensures var dirs := StringListOf(configuration.Get(ImageDirectories));
              && (dirs.None? ==> mediaTable.store == old(mediaTable.store))
              && (dirs.Some? ==> mediaTable.store == RescannedAll(old(mediaTable.store), dirs.value, fs))
    {
      var dirs := StringListOf(configuration.Get(ImageDirectories));
      if dirs.None? {
        return;
      }
      var imageDirectories := dirs.value;
      var i := 0;
      while i < |imageDirectories|
        invariant 0 <= i <= |imageDirectories|
        invariant Valid()
        invariant RescannedAll(mediaTable.store, imageDirectories[i..], fs)
                  == RescannedAll(old(mediaTable.store), imageDirectories, fs)
      {
        assert imageDirectories[i..][0] == imageDirectories[i];
        assert imageDirectories[i..][1..] == imageDirectories[i + 1..];
        RescanMedia(imageDirectories[i], fs(imageDirectories[i]));
        i := i + 1;
      }
    }

    /** Append `path` to the directory list of setting `f`; a setting that
        is not a list of strings is left alone. */
    method AddDirectory(f: ConfigField, path: string)
      requires Valid()
      modifies configuration
      ensures Valid()
      ensures var dirs := StringListOf(old(configuration.Get(f)));
              && (dirs.None? ==> configuration.config == old(configuration.config))
              && (dirs.Some? ==> configuration.config == old(configuration.config)[f := StringsValue(dirs.value + [path])]
                                 && StringListOf(configuration.Get(f)) == Some(dirs.value + [path]))
    {
      var dirs := StringListOf(configuration.Get(f));
      if dirs.None? {
        return;
      }
      var imageDirectories := dirs.value + [path];
      configuration.Set(f, StringsValue(imageDirectories));
      StringListOfRoundTrip(imageDirectories, Null);
    }

    /** Remove the first occurrence of `path` from the directory list of
        setting `f`; a setting that is not a list of strings is left
        alone. */
    method RemoveDirectory(f: ConfigField, path: string)
      requires Valid()
      modifies configuration
      ensures Valid()
      ensures var dirs := StringListOf(old(configuration.Get(f)));
              && (dirs.None? ==> configuration.config == old(configuration.config))
              && (dirs.Some? ==> configuration.config == old(configuration.config)[f := StringsValue(Removed(dirs.value, path))]
                                 && StringListOf(configuration.Get(f)) == Some(Removed(dirs.value, path)))
    {
      var dirs := StringListOf(configuration.Get(f));
      if dirs.None? {
        return;
      }
      var imageDirectories, _ := Remove(dirs.value, path);
      configuration.Set(f, StringsValue(imageDirectories));
      StringListOfRoundTrip(imageDirectories, Null);
    }

    /** `addMedia`: rescan the directory, then add it to the image
        directories. */
    method AddMedia(path: string, listing: Listing)
      requires Valid()
      modifies mediaTable, configuration
      ensures Valid() && mediaTable.store == Rescanned(old(mediaTable.store), path, listing)
      ensures var dirs := StringListOf(old(configuration.Get(ImageDirectories)));
              && (dirs.None? ==> configuration.config == old(configuration.config))
              && (dirs.Some? ==> configuration.config
                                 == old(configuration.config)[ImageDirectories := StringsValue(dirs.value + [path])])
    {
      RescanMedia(path, listing);
      AddDirectory(ImageDirectories, path);
    }

    /** `removeMedia`: drop the directory's records, then remove it from the
        image directories. */
    method RemoveMedia(path: string)
      requires Valid()
      modifies mediaTable, configuration
      ensures Valid() && mediaTable.store == WithoutBase(old(mediaTable.store), HashOf(path))
      ensures var dirs := StringListOf(old(configuration.Get(ImageDirectories)));
              && (dirs.None? ==> configuration.config == old(configuration.config))
              && (dirs.Some? ==> configuration.config
                                 == old(configuration.config)[ImageDirectories := StringsValue(Removed(dirs.value, path))])
    {
      DeleteMediaWhereBasePath(path);
      RemoveDirectory(ImageDirectories, path);
    }

    /** `disableMedia`: add the directory to the disabled ones; the table is
        untouched. */
    method DisableMedia(path: string)
      requires Valid()
      modifies configuration
      ensures Valid()
      ensures var dirs := StringListOf(old(configuration.Get(DisabledImageDirectories)));
              && (dirs.None? ==> configuration.config == old(configuration.config))
              && (dirs.Some? ==> configuration.config
                                 == old(configuration.config)[DisabledImageDirectories := StringsValue(dirs.value + [path])])
    {
      AddDirectory(DisabledImageDirectories, path);
    }

    /** `enableMedia`: remove the directory from the disabled ones. */
    method EnableMedia(path: string)
      requires Valid()
      modifies configuration
      ensures Valid()
      ensures var dirs := StringListOf(old(configuration.Get(DisabledImageDirectories)));
              && (dirs.None? ==> configuration.config == old(configuration.config))
              && (dirs.Some? ==> configuration.config
                                 == old(configuration.config)[DisabledImageDirectories := StringsValue(Removed(dirs.value, path))])
    {
      RemoveDirectory(DisabledImageDirectories, path);
    }

    /** `getDisabledMedia`: the hashes of the disabled directories, or a
        failure when the setting is not a list of strings. */
    method GetDisabledMedia() returns (r: Option<seq<int>>)
      ensures var dirs := StringListOf(configuration.Get(DisabledImageDirectories));
              && (r.Some? <==> dirs.Some?)
              && (r.Some? ==> r.value == DisabledHashes(dirs.value))
    {
      var dirs := StringListOf(configuration.Get(DisabledImageDirectories));
      if dirs.None? {
        return None;
      }
      var hashes: seq<int> := [];
      var i := 0;
      while i < |dirs.value|
        invariant 0 <= i <= |dirs.value|
        invariant |hashes| == i && forall j :: 0 <= j < i ==> hashes[j] == HashOf(dirs.value[j])
      {
        var h := Hash(dirs.value[i]);
        hashes := hashes + [h];
        i := i + 1;
      }
      r := Some(hashes);
    }

    /** `getMediaIds`: the ids of one page of media, as the database
        (`eval`) answers the paging query over the current table. */
    method GetMediaIds(page: int, orderBy: string, asc: bool, includeVideos: bool,
                       eval: (PageQuery, Store) -> seq<ResultRow>) returns (r: Result<seq<Value>>)
      requires Valid()
      modifies mediaTable
      ensures Valid() && mediaTable.store == old(mediaTable.store)
      ensures var dirs := StringListOf(configuration.Get(DisabledImageDirectories));
              && (r.Err? <==> dirs.None?)
              && (r.Ok? ==>
                    var rows := eval(MediaIdsQuery(page, orderBy, asc, includeVideos, DisabledHashes(dirs.value)), mediaTable.store);
                    |r.value| == |rows|
                    && forall j :: 0 <= j < |rows| ==> r.value[j] == Hydrate(MEDIA_FIELDS, rows[j], mediaTable.parse)[ID])
    {
      var hashes := GetDisabledMedia();
      if hashes.None? {
        return Err("Failed to get disabled media directories from configuration");
      }
      var query := BuildMediaIdsQuery(page, orderBy, asc, includeVideos, hashes.value);
      var rows := mediaTable.GetByPreparedStatement((s: Store) => eval(query, s));
      MediaEntityShape();
      var ids := IdsOf(rows);
      r := Ok(ids);
    }

    /** `getMediaFile(id)`: no file when the id is not stored, otherwise
        the path stored under it. A stored value that is not a string leaves
        the row's `file` null, and `new File(null)` then throws a
        NullPointerException that nothing catches. */
    method GetMediaFile(id: int) returns (r: Result<Option<string>>)
      requires Valid()
      modifies mediaTable
      ensures Valid() && mediaTable.store == old(mediaTable.store)
      ensures r == Ok(None) <==> id !in mediaTable.store
      ensures r.Err? <==> id in mediaTable.store && !mediaTable.store[id][FILE].Str?
      ensures r.Err? ==> r.error == NULL_POINTER
      ensures r.Ok? && r.value.Some? ==> id in mediaTable.store && mediaTable.store[id][FILE] == Str(r.value.value)
    {
      var row := mediaTable.GetByPrimaryKey(id);
      if row.None? {
        return Ok(None);
      }
      HydratedMediaRecord(mediaTable.store[id], mediaTable.parse);
      var file := row.value.values[FILE];
      if !file.Str? {
        return Err(NULL_POINTER);
      }
      r := Ok(Some(file.s));
    }
  }
}
