/** The Kobo Desktop Edition library (kobo/library.py): the database copy with
    its header patched, the list of books read from two queries, and the
    candidate user keys derived from MAC addresses and user ids.

    SQLite, SHA-256 and base64 are not modelled: the database is given as its
    three tables, SHA-256 as a function from the ASCII text it hashes to its
    hex digest, and `base64.b64decode` as a function that may fail. */
module KoboLibrary {
  import opened Wrappers
  import opened Text
  import opened Paths
  import opened Errors

  /** A book of the library (`KoboBook`). `encryptedFiles` maps an archive
      entry name to its encrypted page key. */
  datatype KoboBook = KoboBook(
    volumeId: string,
    title: string,
    filename: Path,
    hasDrm: bool,
    author: Option<string>,
    encryptedFiles: map<string, seq<byte>>)

  /** A row of `content_keys`: the key of one entry of one volume, in base64. */
  datatype KeyRow = KeyRow(volumeId: string, elementId: string, elementKey: string)

  /** A row of `content`; NULL columns are None. */
  datatype ContentRow = ContentRow(contentId: string, title: Option<string>, attribution: Option<string>)

  /** The tables of Kobo.sqlite the library reads, each in table order. */
  datatype Database = Database(contentKeys: seq<KeyRow>, content: seq<ContentRow>, userIds: seq<string>)

  /** A SHA-256 hex digest: 64 lower-case hexadecimal characters. */
  predicate IsHexDigit(c: char) {
    ('0' <= c <= '9') || ('a' <= c <= 'f')
  }

  type HexDigest = s: string | |s| == 64 && forall i :: 0 <= i < |s| ==> IsHexDigit(s[i])
    witness seq(64, _ => '0')

  /** `KOBO_HASH_KEYS`, the four fixed hash constants. */
  const HASH_KEYS: seq<string> := ["88b3a2e13", "XzUhGYdFp", "NoCanLook", "QJhwzAtXL"]

  // ---------------------------------------------------------------------
  // Database copy

  /** The temporary database written by the constructor: the first 18 bytes
      of the source, then 0x01 0x01 (both journal versions set to legacy, so
      no write-ahead log is needed), then the source from byte 20 on. A short
      source keeps what `read` delivers. */
  function PatchHeader(src: seq<byte>): (r: seq<byte>)
    ensures |src| >= 20 ==> |r| == |src| && r[18] == 1 && r[19] == 1
    ensures |src| >= 20 ==> forall i :: 0 <= i < |src| && i != 18 && i != 19 ==> r[i] == src[i]
    ensures |src| <= 18 ==> r == src + [1, 1]
    ensures 18 < |src| < 20 ==> r == src[..18] + [1, 1]
  {
    var head := if |src| < 18 then src else src[..18];
    var rest := if |src| < 20 then [] else src[20..];
    head + [1, 1] + rest
  }

  // ---------------------------------------------------------------------
  // Candidate user keys

  /** `binascii.a2b_hex` of a string of hex digits of even length. */
  function HexValue(c: char): (v: nat)
    requires IsHexDigit(c)
    ensures v < 16
  {
    if '0' <= c <= '9' then c as int - '0' as int else c as int - 'a' as int + 10
  }

  function Unhex(s: string): (r: seq<byte>)
    requires |s| % 2 == 0 && forall i :: 0 <= i < |s| ==> IsHexDigit(s[i])
    ensures |r| == |s| / 2
    ensures forall i :: 0 <= i < |r| ==> r[i] == 16 * HexValue(s[2 * i]) + HexValue(s[2 * i + 1])
  {
    seq(|s| / 2, i requires 0 <= i < |s| / 2 => (16 * HexValue(s[2 * i]) + HexValue(s[2 * i + 1])) as byte)
  }

  /** One candidate key: the bytes of hex characters 32..63 of
      sha256(sha256hex(constant + mac) + userid). The hash input is the
      ASCII text itself. */
  function DeriveKey(sha256: string -> HexDigest, hashKey: string, mac: string, userId: string): (key: seq<byte>)
    ensures |key| == 16
  {
    var deviceId := sha256(hashKey + mac);
    var userKeyHex := sha256(deviceId + userId);
    Unhex(userKeyHex[32..])
  }

  /** The rows of a list of lists, one after another. */
  function Flatten<T>(rows: seq<seq<T>>): seq<T>
    decreases |rows|
  {
    if rows == [] then [] else rows[0] + Flatten(rows[1..])
  }

  lemma {:induction false} FlattenAppend<T>(a: seq<seq<T>>, b: seq<seq<T>>)
    ensures Flatten(a + b) == Flatten(a) + Flatten(b)
    decreases |a|
  {
    if a != [] {
      assert (a + b)[0] == a[0] && (a + b)[1..] == a[1..] + b;
      FlattenAppend(a[1..], b);
      calc {
        Flatten(a + b);
        a[0] + Flatten(a[1..] + b);
        a[0] + (Flatten(a[1..]) + Flatten(b));
        (a[0] + Flatten(a[1..])) + Flatten(b);
      }
    } else {
      assert a + b == b;
    }
  }

  /** One more row of a prefix adds that row at the end. */
  lemma FlattenPrefix<T>(rows: seq<seq<T>>, h: nat)
    requires h < |rows|
    ensures Flatten(rows[..h + 1]) == Flatten(rows[..h]) + rows[h]
  {
    FlattenAppend(rows[..h], [rows[h]]);
    assert rows[..h + 1] == rows[..h] + [rows[h]];
    assert Flatten([rows[h]]) == rows[h];
  }

  /** Rows of equal length `n`: element `j` of row `i` sits at `i * n + j`. */
  lemma FlattenIndex<T>(rows: seq<seq<T>>, n: nat, i: nat, j: nat)
    requires forall r :: 0 <= r < |rows| ==> |rows[r]| == n
    requires i < |rows| && j < n
    ensures |Flatten(rows)| == |rows| * n
    ensures i * n + j < |Flatten(rows)| && Flatten(rows)[i * n + j] == rows[i][j]
    ensures Flatten(rows)[i * n..(i + 1) * n] == rows[i]
  {
    FlattenLength(rows, n);
    FlattenRow(rows, n, i);
    var row := Flatten(rows)[i * n..(i + 1) * n];
    assert row[j] == Flatten(rows)[i * n + j];
  }

  /** Row `i` is the slice from `i * n` to `(i + 1) * n`. */
  lemma {:induction false} FlattenRow<T>(rows: seq<seq<T>>, n: nat, i: nat)
    requires forall r :: 0 <= r < |rows| ==> |rows[r]| == n
    requires i < |rows|
    ensures (i + 1) * n <= |Flatten(rows)| && Flatten(rows)[i * n..(i + 1) * n] == rows[i]
    decreases i
  {
    FlattenLength(rows, n);
    MulStep(|rows|, n);
    if i > 0 {
      FlattenRow(rows[1..], n, i - 1);
      MulStep(i, n);
      SliceOfSecond(rows[0], Flatten(rows[1..]), (i - 1) * n, i * n);
    }
  }

  lemma MulStep(i: nat, n: nat)
    requires i > 0
    ensures i * n == n + (i - 1) * n && (i + 1) * n == n + i * n && n <= i * n
  {
  }

  /** A slice of `a + b` past `a` is a slice of `b`. */
  lemma SliceOfSecond<T>(a: seq<T>, b: seq<T>, x: nat, y: nat)
    requires x <= y <= |b|
    ensures (a + b)[|a| + x..|a| + y] == b[x..y]
  {
  }

  lemma {:induction false} FlattenLength<T>(rows: seq<seq<T>>, n: nat)
    requires forall r :: 0 <= r < |rows| ==> |rows[r]| == n
    ensures |Flatten(rows)| == |rows| * n
    decreases |rows|
  {
    if rows != [] {
      FlattenLength(rows[1..], n);
      assert |rows| * n == n + (|rows| - 1) * n;
    }
  }

  /** The keys of one hash constant, one per user id. */
  function HashKeyRow(sha256: string -> HexDigest, hashKey: string, mac: string, userIds: seq<string>): (row: seq<seq<byte>>)
    ensures |row| == |userIds|
  {
    seq(|userIds|, u requires 0 <= u < |userIds| => DeriveKey(sha256, hashKey, mac, userIds[u]))
  }

  /** The keys of one MAC address in `_compute_userkeys` order: hash
      constant outermost, user id innermost. */
  function KeysForMac(sha256: string -> HexDigest, mac: string, userIds: seq<string>): seq<seq<byte>> {
    Flatten(seq(|HASH_KEYS|, h requires 0 <= h < |HASH_KEYS| => HashKeyRow(sha256, HASH_KEYS[h], mac, userIds)))
  }

  /** `_compute_userkeys` yields four keys per user id; the key of constant
      `h` and user id `u` is at `h * |userIds| + u`. */
  lemma KeysForMacOrder(sha256: string -> HexDigest, mac: string, userIds: seq<string>, h: nat, u: nat)
    requires h < |HASH_KEYS| && u < |userIds|
    ensures |KeysForMac(sha256, mac, userIds)| == |HASH_KEYS| * |userIds|
    ensures KeysForMac(sha256, mac, userIds)[h * |userIds| + u] == DeriveKey(sha256, HASH_KEYS[h], mac, userIds[u])
  {
    var rows := seq(|HASH_KEYS|, h requires 0 <= h < |HASH_KEYS| => HashKeyRow(sha256, HASH_KEYS[h], mac, userIds));
    FlattenIndex(rows, |userIds|, h, u);
  }

  lemma KeysForMacLength(sha256: string -> HexDigest, mac: string, userIds: seq<string>)
    ensures |KeysForMac(sha256, mac, userIds)| == |HASH_KEYS| * |userIds|
  {
    var rows := seq(|HASH_KEYS|, h requires 0 <= h < |HASH_KEYS| => HashKeyRow(sha256, HASH_KEYS[h], mac, userIds));
    FlattenLength(rows, |userIds|);
  }

  /** The full candidate list of `userkeys`: the lists of the MAC addresses
      one after another, in MAC order. */
  function AllUserkeys(sha256: string -> HexDigest, macs: seq<string>, userIds: seq<string>): seq<seq<byte>> {
    Flatten(seq(|macs|, m requires 0 <= m < |macs| => KeysForMac(sha256, macs[m], userIds)))
  }

  /** `userkeys` has |macs| * 4 * |userIds| keys, the block of MAC `m` being
      that MAC's `_compute_userkeys` list. */
  lemma AllUserkeysBlocks(sha256: string -> HexDigest, macs: seq<string>, userIds: seq<string>, m: nat)
    requires m < |macs|
    ensures |AllUserkeys(sha256, macs, userIds)| == |macs| * (|HASH_KEYS| * |userIds|)
    ensures var n := |HASH_KEYS| * |userIds|;
            AllUserkeys(sha256, macs, userIds)[m * n..(m + 1) * n] == KeysForMac(sha256, macs[m], userIds)
  {
    var n := |HASH_KEYS| * |userIds|;
    var blocks := seq(|macs|, m requires 0 <= m < |macs| => KeysForMac(sha256, macs[m], userIds));
    forall b | 0 <= b < |blocks| ensures |blocks[b]| == n {
      KeysForMacLength(sha256, macs[b], userIds);
    }
    assert |HASH_KEYS| == 4;
    if n == 0 {
      FlattenLength(blocks, n);
      KeysForMacLength(sha256, macs[m], userIds);
      assert KeysForMac(sha256, macs[m], userIds) == [];
    } else {
      FlattenIndex(blocks, n, m, 0);
    }
  }

  /** No MAC address or no user id: no candidate at all. */
  lemma NoCandidates(sha256: string -> HexDigest, macs: seq<string>, userIds: seq<string>)
    requires macs == [] || userIds == []
    ensures AllUserkeys(sha256, macs, userIds) == []
  {
    if macs != [] {
      var blocks := seq(|macs|, m requires 0 <= m < |macs| => KeysForMac(sha256, macs[m], userIds));
      forall b | 0 <= b < |blocks| ensures |blocks[b]| == 0 {
        KeysForMacLength(sha256, macs[b], userIds);
      }
      FlattenLength(blocks, 0);
    }
  }

  lemma {:induction false} FlattenMember<T>(rows: seq<seq<T>>, k: nat)
    requires k < |Flatten(rows)|
    ensures exists r :: 0 <= r < |rows| && Flatten(rows)[k] in rows[r]
    decreases |rows|
  {
    assert rows != [];
    if k < |rows[0]| {
      assert Flatten(rows)[k] == rows[0][k];
    } else {
      FlattenMember(rows[1..], k - |rows[0]|);
      var r :| 0 <= r < |rows[1..]| && Flatten(rows[1..])[k - |rows[0]|] in rows[1..][r];
      assert rows[1..][r] == rows[r + 1];
    }
  }

  /** Every candidate is a 16-byte AES key. */
  lemma CandidatesAreKeys(sha256: string -> HexDigest, macs: seq<string>, userIds: seq<string>, k: nat)
    requires k < |AllUserkeys(sha256, macs, userIds)|
    ensures |AllUserkeys(sha256, macs, userIds)[k]| == 16
  {
    var blocks := seq(|macs|, m requires 0 <= m < |macs| => KeysForMac(sha256, macs[m], userIds));
    FlattenMember(blocks, k);
    var key := AllUserkeys(sha256, macs, userIds)[k];
    var m :| 0 <= m < |blocks| && key in blocks[m];
    var rows := seq(|HASH_KEYS|, h requires 0 <= h < |HASH_KEYS| => HashKeyRow(sha256, HASH_KEYS[h], macs[m], userIds));
    assert blocks[m] == Flatten(rows);
    var i :| 0 <= i < |Flatten(rows)| && Flatten(rows)[i] == key;
    FlattenMember(rows, i);
  }

  // ---------------------------------------------------------------------
  // Queries

  /** `SELECT Title, Attribution FROM content WHERE ContentID = ?` with
      `fetchone()`: the first matching row. */
  function ContentRowOf(content: seq<ContentRow>, id: string): (r: Option<ContentRow>)
    ensures r.Some? ==> r.value in content && r.value.contentId == id
    ensures r.None? ==> forall i :: 0 <= i < |content| ==> content[i].contentId != id
  {
    if content == [] then None
    else if content[0].contentId == id then Some(content[0])
    else ContentRowOf(content[1..], id)
  }

  /** A row of the outer query: one volume with its title and attribution. */
  datatype DrmRow = DrmRow(volumeId: string, title: Option<string>, attribution: Option<string>)

  /** `SELECT DISTINCT volumeid, Title, Attribution FROM content_keys, content
      WHERE contentid = volumeid`, rows in the order of first appearance in
      `content_keys`. With `ContentID` a key, DISTINCT leaves one row per
      volume. */
  function DrmRowsFrom(keys: seq<KeyRow>, content: seq<ContentRow>, seen: set<string>): (rows: seq<DrmRow>)
    ensures forall i :: 0 <= i < |rows| ==> rows[i].volumeId !in seen
    ensures forall i, j :: 0 <= i < j < |rows| ==> rows[i].volumeId != rows[j].volumeId
    ensures forall i :: 0 <= i < |rows| ==> exists k :: 0 <= k < |keys| && keys[k].volumeId == rows[i].volumeId
    ensures forall i :: 0 <= i < |rows| ==>
              && ContentRowOf(content, rows[i].volumeId).Some?
              && rows[i].title == ContentRowOf(content, rows[i].volumeId).value.title
              && rows[i].attribution == ContentRowOf(content, rows[i].volumeId).value.attribution
    decreases |keys|
  {
    if keys == [] then []
    else
      var v := keys[0].volumeId;
      if v in seen then DrmRowsFrom(keys[1..], content, seen)
      else match ContentRowOf(content, v)
        case None => DrmRowsFrom(keys[1..], content, seen)
        case Some(c) =>
          var rest := DrmRowsFrom(keys[1..], content, seen + {v});
          assert forall i :: 0 <= i < |rest| ==> exists k :: 0 <= k < |keys| && keys[k].volumeId == rest[i].volumeId by {
            forall i | 0 <= i < |rest| ensures exists k :: 0 <= k < |keys| && keys[k].volumeId == rest[i].volumeId {
              var k :| 0 <= k < |keys[1..]| && keys[1..][k].volumeId == rest[i].volumeId;
              assert keys[k + 1].volumeId == rest[i].volumeId;
            }
          }
          [DrmRow(v, c.title, c.attribution)] + rest
  }

  function DrmRows(db: Database): seq<DrmRow> {
    DrmRowsFrom(db.contentKeys, db.content, {})
  }

  /** Every `content_keys` volume not yet seen that has a `content` row gets
      a row. */
  lemma {:induction false} DrmRowsComplete(keys: seq<KeyRow>, content: seq<ContentRow>, seen: set<string>, k: nat)
    requires k < |keys| && keys[k].volumeId !in seen && ContentRowOf(content, keys[k].volumeId).Some?
    ensures keys[k].volumeId in VolumeIds(DrmRowsFrom(keys, content, seen))
    decreases |keys|
  {
    var v := keys[0].volumeId;
    var rows := DrmRowsFrom(keys, content, seen);
    if v in seen || ContentRowOf(content, v).None? {
      assert k != 0;
      assert keys[1..][k - 1] == keys[k];
      DrmRowsComplete(keys[1..], content, seen, k - 1);
    } else if keys[k].volumeId == v {
      assert rows[0].volumeId == v;
    } else {
      assert keys[1..][k - 1] == keys[k];
      DrmRowsComplete(keys[1..], content, seen + {v}, k - 1);
      var rest := DrmRowsFrom(keys[1..], content, seen + {v});
      var i :| 0 <= i < |rest| && rest[i].volumeId == keys[k].volumeId;
      assert rows[i + 1] == rest[i];
    }
  }

  /** The outer query has a row for exactly the `content_keys` volumes that
      have a `content` row, and takes its title and attribution from there. */
  lemma DrmRowsExactly(db: Database, v: string)
    ensures v in VolumeIds(DrmRows(db)) <==>
              (exists k :: 0 <= k < |db.contentKeys| && db.contentKeys[k].volumeId == v)
              && ContentRowOf(db.content, v).Some?
  {
    if v !in VolumeIds(DrmRows(db)) && ContentRowOf(db.content, v).Some? {
      forall k | 0 <= k < |db.contentKeys| ensures db.contentKeys[k].volumeId != v {
        if db.contentKeys[k].volumeId == v {
          DrmRowsComplete(db.contentKeys, db.content, {}, k);
        }
      }
    }
  }

  /** The inner query `SELECT elementid, elementkey FROM content_keys WHERE
      volumeid = ?` folded into the `encrypted_files` dict: a later row for
      the same element overwrites an earlier one; the first undecodable key
      aborts with the decoder's error. */
  function ElementKeys(rows: seq<KeyRow>, volumeId: string, b64decode: string -> Option<seq<byte>>)
    : Option<map<string, seq<byte>>>
    decreases |rows|
  {
    if rows == [] then Some(map[])
    else
      var last := rows[|rows| - 1];
      match ElementKeys(rows[..|rows| - 1], volumeId, b64decode)
      case None => None
      case Some(m) =>
        if last.volumeId != volumeId then Some(m)
        else match b64decode(last.elementKey)
          case None => None
          case Some(k) => Some(m[last.elementId := k])
  }

  /** `encrypted_files` has one entry per element id of the volume. */
  lemma {:induction false} ElementKeysDomain(rows: seq<KeyRow>, volumeId: string, b64decode: string -> Option<seq<byte>>)
    requires ElementKeys(rows, volumeId, b64decode).Some?
    ensures ElementKeys(rows, volumeId, b64decode).value.Keys
            == set i | 0 <= i < |rows| && rows[i].volumeId == volumeId :: rows[i].elementId
    decreases |rows|
  {
    if rows != [] {
      var last := rows[|rows| - 1];
      var before := rows[..|rows| - 1];
      ElementKeysDomain(before, volumeId, b64decode);
      assert forall i :: 0 <= i < |before| ==> before[i] == rows[i];
      if last.volumeId != volumeId {
        assert (set i | 0 <= i < |rows| && rows[i].volumeId == volumeId :: rows[i].elementId)
            == (set i | 0 <= i < |before| && before[i].volumeId == volumeId :: before[i].elementId);
      } else {
        assert (set i | 0 <= i < |rows| && rows[i].volumeId == volumeId :: rows[i].elementId)
            == (set i | 0 <= i < |before| && before[i].volumeId == volumeId :: before[i].elementId) + {last.elementId};
      }
    }
  }

  /** The value an element id gets: the decoded key of its last row. */
  lemma {:induction false} ElementKeyIsLastRow(rows: seq<KeyRow>, volumeId: string, b64decode: string -> Option<seq<byte>>, i: nat)
    requires ElementKeys(rows, volumeId, b64decode).Some?
    requires i < |rows| && rows[i].volumeId == volumeId
    requires forall j :: i < j < |rows| && rows[j].volumeId == volumeId ==> rows[j].elementId != rows[i].elementId
    ensures b64decode(rows[i].elementKey).Some?
    ensures rows[i].elementId in ElementKeys(rows, volumeId, b64decode).value
    ensures ElementKeys(rows, volumeId, b64decode).value[rows[i].elementId] == b64decode(rows[i].elementKey).value
    decreases |rows|
  {
    ElementKeysDomain(rows, volumeId, b64decode);
    var before := rows[..|rows| - 1];
    if i < |rows| - 1 {
      assert forall j :: i < j < |before| ==> before[j] == rows[j];
      ElementKeyIsLastRow(before, volumeId, b64decode, i);
      assert before[i] == rows[i];
    }
  }

  // ---------------------------------------------------------------------
  // Sorting by lower-cased title

  /** Python's `str` order: lexicographic by code point. */
  predicate LexLe(a: string, b: string)
    decreases |a|
  {
    a == [] || (b != [] && (a[0] < b[0] || (a[0] == b[0] && LexLe(a[1..], b[1..]))))
  }

  lemma {:induction false} LexLeTotal(a: string, b: string)
    ensures LexLe(a, b) || LexLe(b, a)
    decreases |a|
  {
    if a != [] && b != [] && a[0] == b[0] {
      LexLeTotal(a[1..], b[1..]);
    }
  }

  lemma {:induction false} LexLeTransitive(a: string, b: string, c: string)
    requires LexLe(a, b) && LexLe(b, c)
    ensures LexLe(a, c)
    decreases |a|
  {
    if a != [] && b != [] && c != [] && a[0] == b[0] && b[0] == c[0] {
      LexLeTransitive(a[1..], b[1..], c[1..]);
    }
  }

  function SortKey(b: KoboBook): string {
    Lower(b.title)
  }

  ghost predicate SortedByTitle(s: seq<KoboBook>) {
    forall i, j :: 0 <= i < j < |s| ==> LexLe(SortKey(s[i]), SortKey(s[j]))
  }

  /** `b` placed before the first book whose key is not smaller. */
  function Insert(b: KoboBook, s: seq<KoboBook>): seq<KoboBook> {
    if s == [] then [b]
    else if LexLe(SortKey(b), SortKey(s[0])) then [b] + s
    else [s[0]] + Insert(b, s[1..])
  }

  lemma {:induction false} InsertPermutes(b: KoboBook, s: seq<KoboBook>)
    ensures multiset(Insert(b, s)) == multiset(s) + multiset{b}
  {
    if s != [] && !LexLe(SortKey(b), SortKey(s[0])) {
      InsertPermutes(b, s[1..]);
      assert s == [s[0]] + s[1..];
    }
  }

  lemma {:induction false} InsertSorted(b: KoboBook, s: seq<KoboBook>)
    requires SortedByTitle(s)
    ensures SortedByTitle(Insert(b, s))
  {
    if s == [] {
    } else if LexLe(SortKey(b), SortKey(s[0])) {
      forall j | 0 <= j < |s| ensures LexLe(SortKey(b), SortKey(s[j])) {
        if j > 0 { LexLeTransitive(SortKey(b), SortKey(s[0]), SortKey(s[j])); }
      }
    } else {
      LexLeTotal(SortKey(b), SortKey(s[0]));
      InsertSorted(b, s[1..]);
      InsertPermutes(b, s[1..]);
      var rest := Insert(b, s[1..]);
      forall j | 0 <= j < |rest| ensures LexLe(SortKey(s[0]), SortKey(rest[j])) {
        assert rest[j] in multiset(rest);
        if rest[j] != b {
          assert rest[j] in multiset(s[1..]);
          var k :| 0 <= k < |s[1..]| && s[1..][k] == rest[j];
          assert s[k + 1] == rest[j];
        }
      }
    }
  }

  /** `list.sort(key=lambda x: x.title.lower())`; ties keep their order. */
  function SortByTitle(s: seq<KoboBook>): seq<KoboBook> {
    if s == [] then [] else Insert(s[0], SortByTitle(s[1..]))
  }

  /** The sort orders by lower-cased title and only permutes. */
  lemma {:induction false} SortByTitleSorts(s: seq<KoboBook>)
    ensures SortedByTitle(SortByTitle(s))
    ensures multiset(SortByTitle(s)) == multiset(s)
  {
    if s != [] {
      var rest := SortByTitle(s[1..]);
      SortByTitleSorts(s[1..]);
      InsertSorted(s[0], rest);
      InsertPermutes(s[0], rest);
      assert SortByTitle(s) == Insert(s[0], rest);
      assert multiset(s) == multiset(s[1..]) + multiset{s[0]} by {
        assert s == [s[0]] + s[1..];
      }
    }
  }

  /** The books of `s` whose lower-cased title is `key`, in their order. */
  function TitleClass(s: seq<KoboBook>, key: string): (r: seq<KoboBook>)
    ensures |r| <= |s|
    decreases |s|
  {
    if s == [] then []
    else (if SortKey(s[0]) == key then [s[0]] else []) + TitleClass(s[1..], key)
  }

  /** Inserting puts `b` before every book with the same key. */
  lemma {:induction false} InsertClass(b: KoboBook, s: seq<KoboBook>, key: string)
    ensures TitleClass(Insert(b, s), key) == (if SortKey(b) == key then [b] else []) + TitleClass(s, key)
    decreases |s|
  {
    if s == [] {
      assert TitleClass([b], key) == (if SortKey(b) == key then [b] else []) + TitleClass([], key);
    } else if LexLe(SortKey(b), SortKey(s[0])) {
      assert ([b] + s)[1..] == s;
    } else {
      LexLeTotal(SortKey(b), SortKey(b));
      assert SortKey(b) != SortKey(s[0]);
      InsertClass(b, s[1..], key);
      assert ([s[0]] + Insert(b, s[1..]))[1..] == Insert(b, s[1..]);
    }
  }

  /** The sort is stable: books with the same lower-cased title keep their
      relative order. */
  lemma {:induction false} SortByTitleStable(s: seq<KoboBook>, key: string)
    ensures TitleClass(SortByTitle(s), key) == TitleClass(s, key)
    decreases |s|
  {
    if s != [] {
      SortByTitleStable(s[1..], key);
      InsertClass(s[0], SortByTitle(s[1..]), key);
    }
  }

  // ---------------------------------------------------------------------
  // The library

  /** `title or fallback`: None and "" both fall back. */
  function TitleOr(title: Option<string>, fallback: string): (t: string)
    ensures title.Some? && title.value != [] ==> t == title.value
    ensures title.None? || title.value == [] ==> t == fallback
  {
    if title.Some? && title.value != [] then title.value else fallback
  }

  /** The book of one outer-query row, or None when one of its element keys
      does not decode. */
  function DrmBook(kobodir: Path, db: Database, row: DrmRow, b64decode: string -> Option<seq<byte>>)
    : (r: Option<KoboBook>)
    ensures r.Some? ==> r.value.hasDrm && r.value.volumeId == row.volumeId
    ensures r.Some? ==> r.value.title == TitleOr(row.title, row.volumeId) && r.value.author == row.attribution
    ensures r.Some? ==> r.value.filename == Child(Child(kobodir, "kepub"), row.volumeId)
    ensures r.None? <==> ElementKeys(db.contentKeys, row.volumeId, b64decode).None?
  {
    match ElementKeys(db.contentKeys, row.volumeId, b64decode)
    case None => None
    case Some(m) =>
      Some(KoboBook(row.volumeId, TitleOr(row.title, row.volumeId), Child(Child(kobodir, "kepub"), row.volumeId),
                    true, row.attribution, m))
  }

  /** The books appended by the loop over the outer rows; `complete` is false
      when a key failed to decode, and `books` then holds the books before
      the failing row. */
  datatype Collected = Collected(books: seq<KoboBook>, complete: bool)

  function CollectDrm(kobodir: Path, db: Database, rows: seq<DrmRow>, b64decode: string -> Option<seq<byte>>)
    : Collected
    decreases |rows|
  {
    if rows == [] then Collected([], true)
    else match DrmBook(kobodir, db, rows[0], b64decode)
      case None => Collected([], false)
      case Some(b) =>
        var rest := CollectDrm(kobodir, db, rows[1..], b64decode);
        Collected([b] + rest.books, rest.complete)
  }

  /** The loop keeps the books of the rows before the first failing one;
      it completes exactly when no row fails. */
  lemma {:induction false} CollectDrmBooks(kobodir: Path, db: Database, rows: seq<DrmRow>,
                                           b64decode: string -> Option<seq<byte>>)
    ensures var c := CollectDrm(kobodir, db, rows, b64decode);
            && |c.books| <= |rows|
            && (forall k :: 0 <= k < |c.books| ==> DrmBook(kobodir, db, rows[k], b64decode) == Some(c.books[k]))
            && (c.complete ==> |c.books| == |rows|)
            && (!c.complete ==> |c.books| < |rows| && DrmBook(kobodir, db, rows[|c.books|], b64decode).None?)
    decreases |rows|
  {
    if rows != [] && DrmBook(kobodir, db, rows[0], b64decode).Some? {
      CollectDrmBooks(kobodir, db, rows[1..], b64decode);
      var c := CollectDrm(kobodir, db, rows, b64decode);
      var rest := CollectDrm(kobodir, db, rows[1..], b64decode);
      assert c.books == [DrmBook(kobodir, db, rows[0], b64decode).value] + rest.books;
      forall k | 0 < k < |c.books| ensures DrmBook(kobodir, db, rows[k], b64decode) == Some(c.books[k]) {
        assert rows[1..][k - 1] == rows[k] && c.books[k] == rest.books[k - 1];
      }
      if !c.complete {
        assert rows[1..][|rest.books|] == rows[|c.books|];
      }
    }
  }

  /** The DRM-free books from the directory listing, in listing order: a
      file whose name is no volume seen so far and that has a `content`
      row; the name is then seen. */
  function FreeBooks(kobodir: Path, db: Database, files: seq<string>, seen: set<string>): (r: seq<KoboBook>)
    ensures forall i :: 0 <= i < |r| ==> !r[i].hasDrm && r[i].volumeId in files && r[i].volumeId !in seen
    ensures forall i :: 0 <= i < |r| ==> ContentRowOf(db.content, r[i].volumeId).Some?
    ensures forall i, j :: 0 <= i < j < |r| ==> r[i].volumeId != r[j].volumeId
    decreases |files|
  {
    if files == [] then []
    else
      var f := files[0];
      if f in seen then FreeBooks(kobodir, db, files[1..], seen)
      else match ContentRowOf(db.content, f)
        case None => FreeBooks(kobodir, db, files[1..], seen)
        case Some(c) =>
          [KoboBook(f, TitleOr(c.title, f), Child(Child(kobodir, "kepub"), f), false, c.attribution, map[])]
          + FreeBooks(kobodir, db, files[1..], seen + {f})
  }
  /** One step of the listing scan, from position `j` on. */
  lemma FreeBooksAt(kobodir: Path, db: Database, files: seq<string>, j: nat, seen: set<string>)
    requires j < |files|
    ensures var f := files[j];
            FreeBooks(kobodir, db, files[j..], seen)
              == if f in seen || ContentRowOf(db.content, f).None? then FreeBooks(kobodir, db, files[j + 1..], seen)
                 else [KoboBook(f, TitleOr(ContentRowOf(db.content, f).value.title, f), Child(Child(kobodir, "kepub"), f),
                                false, ContentRowOf(db.content, f).value.attribution, map[])]
                      + FreeBooks(kobodir, db, files[j + 1..], seen + {f})
  {
    assert files[j..][0] == files[j] && files[j..][1..] == files[j + 1..];
  }


  /** Every listed file that is no volume and has a `content` row becomes a
      book. */
  lemma {:induction false} FreeBooksComplete(kobodir: Path, db: Database, files: seq<string>, seen: set<string>, f: string)
    requires f in files && f !in seen && ContentRowOf(db.content, f).Some?
    ensures exists i :: 0 <= i < |FreeBooks(kobodir, db, files, seen)| && FreeBooks(kobodir, db, files, seen)[i].volumeId == f
    decreases |files|
  {
    var r := FreeBooks(kobodir, db, files, seen);
    if files[0] == f {
      assert r[0].volumeId == f;
    } else {
      var g := files[0];
      var seen' := if g !in seen && ContentRowOf(db.content, g).Some? then seen + {g} else seen;
      FreeBooksComplete(kobodir, db, files[1..], seen', f);
      var rest := FreeBooks(kobodir, db, files[1..], seen');
      var i :| 0 <= i < |rest| && rest[i].volumeId == f;
      if g in seen || ContentRowOf(db.content, g).None? {
        assert r == rest;
      } else {
        assert r[i + 1] == rest[i];
      }
    }
  }

  function VolumeIds(rows: seq<DrmRow>): set<string> {
    set i | 0 <= i < |rows| :: rows[i].volumeId
  }

  function BookIds(s: seq<KoboBook>): set<string> {
    set b | b in s :: b.volumeId
  }

  ghost predicate DistinctIds(s: seq<KoboBook>) {
    forall i, j :: 0 <= i < j < |s| ==> s[i].volumeId != s[j].volumeId
  }

  lemma BookIdsCons(x: KoboBook, s: seq<KoboBook>)
    ensures BookIds([x] + s) == {x.volumeId} + BookIds(s)
  {
    assert forall b :: b in [x] + s <==> b == x || b in s;
  }

  /** A list with a book in front has no volume twice exactly when the rest
      has none and does not hold the front book's volume. */
  lemma DistinctCons(x: KoboBook, s: seq<KoboBook>)
    ensures DistinctIds([x] + s) <==> DistinctIds(s) && x.volumeId !in BookIds(s)
  {
    if DistinctIds([x] + s) {
      DistinctTail(x, s);
    }
    if DistinctIds(s) && x.volumeId !in BookIds(s) {
      DistinctJoin(x, s);
    }
  }

  lemma DistinctTail(x: KoboBook, s: seq<KoboBook>)
    requires DistinctIds([x] + s)
    ensures DistinctIds(s) && x.volumeId !in BookIds(s)
  {
    var l := [x] + s;
    forall i, j | 0 <= i < j < |s| ensures s[i].volumeId != s[j].volumeId {
      assert l[i + 1] == s[i] && l[j + 1] == s[j];
    }
    forall k | 0 <= k < |s| ensures s[k].volumeId != x.volumeId {
      assert l[0] == x && l[k + 1] == s[k];
    }
  }

  lemma DistinctJoin(x: KoboBook, s: seq<KoboBook>)
    requires DistinctIds(s) && x.volumeId !in BookIds(s)
    ensures DistinctIds([x] + s)
  {
    var l := [x] + s;
    forall i, j | 0 <= i < j < |l| ensures l[i].volumeId != l[j].volumeId {
      assert l[j] == s[j - 1] && l[j] in s && l[j].volumeId in BookIds(s);
      if i > 0 {
        assert l[i] == s[i - 1];
      }
    }
  }

  /** Inserting adds the book's volume to the volumes. */
  lemma {:induction false} InsertIds(b: KoboBook, s: seq<KoboBook>)
    ensures BookIds(Insert(b, s)) == BookIds(s) + {b.volumeId}
  {
    if s == [] {
      BookIdsCons(b, []);
    } else if LexLe(SortKey(b), SortKey(s[0])) {
      BookIdsCons(b, s);
    } else {
      InsertIds(b, s[1..]);
      BookIdsCons(s[0], Insert(b, s[1..]));
      BookIdsCons(s[0], s[1..]);
      assert [s[0]] + s[1..] == s;
    }
  }

  lemma {:induction false} InsertKeepsDistinct(b: KoboBook, s: seq<KoboBook>)
    requires DistinctIds(s) && b.volumeId !in BookIds(s)
    ensures DistinctIds(Insert(b, s))
  {
    if s == [] || LexLe(SortKey(b), SortKey(s[0])) {
      DistinctCons(b, s);
    } else {
      assert [s[0]] + s[1..] == s;
      DistinctCons(s[0], s[1..]);
      BookIdsCons(s[0], s[1..]);
      InsertKeepsDistinct(b, s[1..]);
      InsertIds(b, s[1..]);
      DistinctCons(s[0], Insert(b, s[1..]));
    }
  }

  /** Sorting keeps the volumes. */
  lemma {:induction false} SortIds(s: seq<KoboBook>)
    ensures BookIds(SortByTitle(s)) == BookIds(s)
  {
    if s != [] {
      SortIds(s[1..]);
      InsertIds(s[0], SortByTitle(s[1..]));
      BookIdsCons(s[0], s[1..]);
      assert [s[0]] + s[1..] == s;
    }
  }

  lemma {:induction false} SortKeepsDistinct(s: seq<KoboBook>)
    requires DistinctIds(s)
    ensures DistinctIds(SortByTitle(s))
  {
    if s != [] {
      assert [s[0]] + s[1..] == s;
      DistinctCons(s[0], s[1..]);
      SortKeepsDistinct(s[1..]);
      SortIds(s[1..]);
      InsertKeepsDistinct(s[0], SortByTitle(s[1..]));
    }
  }

  /** What the first access to `books` leaves: the result and the memo. On a
      decoding failure the memo already holds the books appended so far. */
  datatype BooksLoad = BooksLoad(result: Result<seq<KoboBook>, Error>, memo: seq<KoboBook>)

  /** The first access to `books`, as a function of the library's tables and
      the listing of `kobodir/kepub`. */
  function LoadBooks(kobodir: Path, db: Database, listing: Option<seq<string>>, b64decode: string -> Option<seq<byte>>)
    : BooksLoad
  {
    var rows := DrmRows(db);
    var c := CollectDrm(kobodir, db, rows, b64decode);
    if !c.complete then BooksLoad(Failure(Foreign("binascii.Error")), c.books)
    else
      var free := if listing.None? then [] else FreeBooks(kobodir, db, listing.value, VolumeIds(rows));
      var sorted := SortByTitle(c.books + free);
      BooksLoad(Success(sorted), sorted)
  }

  /** The DRM books and the DRM-free ones together have no volume twice. */
  lemma DrmAndFreeDistinct(kobodir: Path, db: Database, files: seq<string>, b64decode: string -> Option<seq<byte>>)
    requires CollectDrm(kobodir, db, DrmRows(db), b64decode).complete
    ensures DistinctIds(CollectDrm(kobodir, db, DrmRows(db), b64decode).books
                        + FreeBooks(kobodir, db, files, VolumeIds(DrmRows(db))))
  {
    var rows := DrmRows(db);
    CollectDrmBooks(kobodir, db, rows, b64decode);
    var drm := CollectDrm(kobodir, db, rows, b64decode).books;
    forall k | 0 <= k < |drm| ensures drm[k].volumeId == rows[k].volumeId {
      assert DrmBook(kobodir, db, rows[k], b64decode) == Some(drm[k]);
    }
    DistinctAppend(drm, FreeBooks(kobodir, db, files, VolumeIds(rows)), VolumeIds(rows));
  }

  /** Two lists without repeated volumes, the first within `seen` and the
      second outside it, have none together. */
  lemma DistinctAppend(a: seq<KoboBook>, b: seq<KoboBook>, seen: set<string>)
    requires DistinctIds(a) && DistinctIds(b)
    requires forall i :: 0 <= i < |a| ==> a[i].volumeId in seen
    requires forall j :: 0 <= j < |b| ==> b[j].volumeId !in seen
    ensures DistinctIds(a + b)
  {
    var all := a + b;
    forall i, j | 0 <= i < j < |all| ensures all[i].volumeId != all[j].volumeId {
      if j >= |a| {
        assert all[j] == b[j - |a|];
        if i >= |a| {
          assert all[i] == b[i - |a|];
        }
      }
    }
  }

  /** A successful load is sorted by lower-cased title, has no volume twice
      and is what the memo keeps. */
  lemma LoadBooksSorted(kobodir: Path, db: Database, listing: Option<seq<string>>, b64decode: string -> Option<seq<byte>>)
    requires LoadBooks(kobodir, db, listing, b64decode).result.Success?
    ensures var bs := LoadBooks(kobodir, db, listing, b64decode).result.value;
            && SortedByTitle(bs)
            && DistinctIds(bs)
            && LoadBooks(kobodir, db, listing, b64decode).memo == bs
  {
    var rows := DrmRows(db);
    var drm := CollectDrm(kobodir, db, rows, b64decode).books;
    var free := if listing.None? then [] else FreeBooks(kobodir, db, listing.value, VolumeIds(rows));
    SortByTitleSorts(drm + free);
    DrmAndFreeDistinct(kobodir, db, if listing.None? then [] else listing.value, b64decode);
    assert FreeBooks(kobodir, db, [], VolumeIds(rows)) == [];
    SortKeepsDistinct(drm + free);
  }

  /** A load fails exactly when some DRM volume has an undecodable key, and
      the memo then holds the books of the volumes before it. */
  lemma LoadBooksFails(kobodir: Path, db: Database, listing: Option<seq<string>>, b64decode: string -> Option<seq<byte>>)
    ensures var l := LoadBooks(kobodir, db, listing, b64decode);
            var rows := DrmRows(db);
            && (l.result.Failure? <==> exists i :: 0 <= i < |rows| && DrmBook(kobodir, db, rows[i], b64decode).None?)
            && (l.result.Failure? ==> |l.memo| < |rows| && DrmBook(kobodir, db, rows[|l.memo|], b64decode).None?
                                      && forall k :: 0 <= k < |l.memo| ==> DrmBook(kobodir, db, rows[k], b64decode) == Some(l.memo[k]))
  {
    var rows := DrmRows(db);
    CollectDrmBooks(kobodir, db, rows, b64decode);
  }

  /** A book of the DRM-or-free list is also in the sorted load. */
  lemma InLoad(kobodir: Path, db: Database, listing: Option<seq<string>>, b64decode: string -> Option<seq<byte>>,
               b: KoboBook)
    requires LoadBooks(kobodir, db, listing, b64decode).result.Success?
    requires var rows := DrmRows(db);
             b in CollectDrm(kobodir, db, rows, b64decode).books
               + (if listing.None? then [] else FreeBooks(kobodir, db, listing.value, VolumeIds(rows)))
    ensures b in LoadBooks(kobodir, db, listing, b64decode).result.value
  {
    var rows := DrmRows(db);
    var all := CollectDrm(kobodir, db, rows, b64decode).books
               + (if listing.None? then [] else FreeBooks(kobodir, db, listing.value, VolumeIds(rows)));
    SortByTitleSorts(all);
    assert b in multiset(SortByTitle(all));
  }

  /** Every volume of `content_keys` that has a `content` row yields a book
      with DRM, titled and attributed from that row, whose `encrypted_files`
      has exactly that volume's element ids. */
  lemma LoadBooksCoversDrmVolumes(kobodir: Path, db: Database, listing: Option<seq<string>>,
                                  b64decode: string -> Option<seq<byte>>, v: string, kr: nat)
    requires LoadBooks(kobodir, db, listing, b64decode).result.Success?
    requires kr < |db.contentKeys| && db.contentKeys[kr].volumeId == v && ContentRowOf(db.content, v).Some?
    ensures var bs := LoadBooks(kobodir, db, listing, b64decode).result.value;
            var c := ContentRowOf(db.content, v).value;
            exists b :: b in bs && b.volumeId == v && b.hasDrm
              && b.title == TitleOr(c.title, v) && b.author == c.attribution
              && b.encryptedFiles.Keys
                 == set k | 0 <= k < |db.contentKeys| && db.contentKeys[k].volumeId == v :: db.contentKeys[k].elementId
  {
    DrmRowsComplete(db.contentKeys, db.content, {}, kr);
    var rows := DrmRows(db);
    var c := CollectDrm(kobodir, db, rows, b64decode);
    CollectDrmBooks(kobodir, db, rows, b64decode);
    var r :| 0 <= r < |rows| && rows[r].volumeId == v;
    var b := c.books[r];
    assert DrmBook(kobodir, db, rows[r], b64decode) == Some(b);
    ElementKeysDomain(db.contentKeys, v, b64decode);
    InLoad(kobodir, db, listing, b64decode, b);
  }

  /** Every listed file that is no DRM volume and has a `content` row
      yields a book without DRM. */
  lemma LoadBooksCoversFreeFiles(kobodir: Path, db: Database, listing: Option<seq<string>>,
                                 b64decode: string -> Option<seq<byte>>, f: string)
    requires LoadBooks(kobodir, db, listing, b64decode).result.Success?
    requires listing.Some? && f in listing.value && f !in VolumeIds(DrmRows(db))
    requires ContentRowOf(db.content, f).Some?
    ensures var bs := LoadBooks(kobodir, db, listing, b64decode).result.value;
            exists b :: b in bs && b.volumeId == f && !b.hasDrm
  {
    var rows := DrmRows(db);
    var free := FreeBooks(kobodir, db, listing.value, VolumeIds(rows));
    FreeBooksComplete(kobodir, db, listing.value, VolumeIds(rows), f);
    var k :| 0 <= k < |free| && free[k].volumeId == f;
    InLoad(kobodir, db, listing, b64decode, free[k]);
  }

  class Library {
    /** `self.kobodir` */
    const kobodir: Path
    /** the bytes of the temporary database copy */
    const tmpdb: seq<byte>
    /** the tables sqlite reads from that copy */
    const db: Database
    /** the names under `kobodir/kepub`, None when the directory is absent */
    const kepubListing: Option<seq<string>>
    const sha256: string -> HexDigest
    const b64decode: string -> Option<seq<byte>>

    /** `self._books` and `self._userkeys`; None until first access */
    var booksMemo: Option<seq<KoboBook>>
    var userkeysMemo: Option<seq<seq<byte>>>

    constructor (kobodir: Path, source: seq<byte>, db: Database, kepubListing: Option<seq<string>>,
                 sha256: string -> HexDigest, b64decode: string -> Option<seq<byte>>)
      ensures this.kobodir == kobodir && this.db == db && this.kepubListing == kepubListing
      ensures this.sha256 == sha256 && this.b64decode == b64decode
      ensures tmpdb == PatchHeader(source)
      ensures booksMemo.None? && userkeysMemo.None?
    {
      this.kobodir := kobodir;
      this.db := db;
      this.kepubListing := kepubListing;
      this.sha256 := sha256;
      this.b64decode := b64decode;
      var out := CopyPatched(source);
      tmpdb := out;
      booksMemo := None;
      userkeysMemo := None;
    }

    /** `_compute_userkeys(macaddr)`: the nested loops over the hash
        constants and the user ids. */
    method ComputeUserkeys(mac: string) returns (keys: seq<seq<byte>>)
      ensures keys == KeysForMac(sha256, mac, db.userIds)
    {
      var userIds := db.userIds;
      ghost var rows := seq(|HASH_KEYS|, h requires 0 <= h < |HASH_KEYS| => HashKeyRow(sha256, HASH_KEYS[h], mac, userIds));
      keys := [];
      for h := 0 to |HASH_KEYS|
        invariant keys == Flatten(rows[..h])
      {
        var row := HashKeyKeys(HASH_KEYS[h], mac, userIds);
        FlattenPrefix(rows, h);
        keys := keys + row;
      }
      assert rows[..|HASH_KEYS|] == rows;
    }

    /** The inner loop of `_compute_userkeys`: one hash constant's device
        id, then one key per user id. */
    method HashKeyKeys(hashKey: string, mac: string, userIds: seq<string>) returns (row: seq<seq<byte>>)
      ensures row == HashKeyRow(sha256, hashKey, mac, userIds)
    {
      var deviceId := sha256(hashKey + mac);
      row := [];
      for u := 0 to |userIds|
        invariant row == HashKeyRow(sha256, hashKey, mac, userIds)[..u]
      {
        var userKeyHex := sha256(deviceId + userIds[u]);
        row := row + [Unhex(userKeyHex[32..])];
      }
    }

    /** `userkeys`: computed once from the MAC addresses of the first call,
        then served from the memo. */
    method Userkeys(macs: seq<string>) returns (keys: seq<seq<byte>>)
      modifies this`userkeysMemo
      ensures old(userkeysMemo).Some? ==> keys == old(userkeysMemo).value && userkeysMemo == old(userkeysMemo)
      ensures old(userkeysMemo).None? ==> keys == AllUserkeys(sha256, macs, db.userIds) && userkeysMemo == Some(keys)
    {
      if userkeysMemo.Some? {
        return userkeysMemo.value;
      }
      ghost var blocks := seq(|macs|, m requires 0 <= m < |macs| => KeysForMac(sha256, macs[m], db.userIds));
      keys := [];
      for m := 0 to |macs|
        invariant keys == Flatten(blocks[..m])
      {
        var more := ComputeUserkeys(macs[m]);
        FlattenPrefix(blocks, m);
        keys := keys + more;
      }
      assert blocks[..|macs|] == blocks;
      userkeysMemo := Some(keys);
    }

    /** The inner query of one volume folded into `encrypted_files`. */
    method ElementKeysOf(volumeId: string) returns (r: Option<map<string, seq<byte>>>)
      ensures r == ElementKeys(db.contentKeys, volumeId, b64decode)
    {
      var keyRows := db.contentKeys;
      var encrypted := map[];
      for k := 0 to |keyRows|
        invariant ElementKeys(keyRows[..k], volumeId, b64decode) == Some(encrypted)
      {
        assert keyRows[..k + 1][..k] == keyRows[..k];
        if keyRows[k].volumeId == volumeId {
          var decoded := b64decode(keyRows[k].elementKey);
          if decoded.None? {
            ElementKeysStaysFailed(keyRows, k + 1, volumeId);
            return None;
          }
          encrypted := encrypted[keyRows[k].elementId := decoded.value];
        }
      }
      assert keyRows[..|keyRows|] == keyRows;
      r := Some(encrypted);
    }

    lemma ElementKeysStaysFailed(rows: seq<KeyRow>, k: nat, volumeId: string)
      requires k <= |rows| && ElementKeys(rows[..k], volumeId, b64decode).None?
      ensures ElementKeys(rows, volumeId, b64decode).None?
      decreases |rows| - k
    {
      if k < |rows| {
        assert rows[..k + 1][..k] == rows[..k];
        ElementKeysStaysFailed(rows, k + 1, volumeId);
      } else {
        assert rows[..k] == rows;
      }
    }

    /** One iteration of the loop over the outer rows. */
    method MakeDrmBook(row: DrmRow) returns (r: Option<KoboBook>)
      ensures r == DrmBook(kobodir, db, row, b64decode)
    {
      var encrypted := ElementKeysOf(row.volumeId);
      if encrypted.None? {
        return None;
      }
      r := Some(KoboBook(row.volumeId, TitleOr(row.title, row.volumeId), Child(Child(kobodir, "kepub"), row.volumeId),
                         true, row.attribution, encrypted.value));
    }

    /** The loop over the outer rows; `books` are the books appended, and
        `complete` is false when a key failed to decode. */
    method CollectDrmLoop(rows: seq<DrmRow>) returns (books: seq<KoboBook>, complete: bool)
      ensures CollectDrm(kobodir, db, rows, b64decode) == Collected(books, complete)
    {
      books := [];
      for i := 0 to |rows|
        invariant CollectDrm(kobodir, db, rows, b64decode)
                  == Collected(books + CollectDrm(kobodir, db, rows[i..], b64decode).books,
                               CollectDrm(kobodir, db, rows[i..], b64decode).complete)
      {
        var book := MakeDrmBook(rows[i]);
        assert rows[i..][0] == rows[i] && rows[i..][1..] == rows[i + 1..];
        if book.None? {
          return books, false;
        }
        books := books + [book.value];
      }
      assert rows[|rows|..] == [];
      complete := true;
    }

    /** The scan of `kobodir/kepub` for DRM-free books. */
    method CollectFreeBooks(files: seq<string>, seen: set<string>) returns (free: seq<KoboBook>)
      ensures free == FreeBooks(kobodir, db, files, seen)
    {
      var volumeIds := seen;
      free := [];
      for j := 0 to |files|
        invariant free + FreeBooks(kobodir, db, files[j..], volumeIds) == FreeBooks(kobodir, db, files, seen)
      {
        FreeBooksAt(kobodir, db, files, j, volumeIds);
        var f := files[j];
        if f !in volumeIds {
          var row := ContentRowOf(db.content, f);
          if row.Some? {
            var book := KoboBook(f, TitleOr(row.value.title, f), Child(Child(kobodir, "kepub"), f), false,
                                 row.value.attribution, map[]);
            ghost var rest := FreeBooks(kobodir, db, files[j + 1..], volumeIds + {f});
            assert free + ([book] + rest) == (free + [book]) + rest;
            free := free + [book];
            volumeIds := volumeIds + {f};
          }
        }
      }
      assert files[|files|..] == [];
    }

    /** `books`: built on the first access (the DRM volumes, each with its
        element keys read through a second cursor after the outer rows were
        fetched in full, then the DRM-free files, then sorted) and served
        from the memo afterwards. */
    method Books() returns (r: Result<seq<KoboBook>, Error>)
      modifies this`booksMemo
      ensures old(booksMemo).Some? ==> r == Success(old(booksMemo).value) && booksMemo == old(booksMemo)
      ensures old(booksMemo).None? ==> r == LoadBooks(kobodir, db, kepubListing, b64decode).result
      ensures old(booksMemo).None? ==> booksMemo == Some(LoadBooks(kobodir, db, kepubListing, b64decode).memo)
    {
      if booksMemo.Some? {
        return Success(booksMemo.value);
      }
      booksMemo := Some([]);
      var drmRows := DrmRows(db);
      var books, complete := CollectDrmLoop(drmRows);
      booksMemo := Some(books);
      if !complete {
        return Failure(Foreign("binascii.Error"));
      }
      var volumeIds := set i | 0 <= i < |drmRows| :: drmRows[i].volumeId;
      if kepubListing.Some? {
        var free := CollectFreeBooks(kepubListing.value, volumeIds);
        books := books + free;
        booksMemo := Some(books);
      } else {
        assert books + [] == books;
      }
      books := SortByTitle(books);
      booksMemo := Some(books);
      r := Success(books);
    }
  }

  /** The header patch as the constructor writes it: `read(18)`, then
      0x01 0x01, then the source after skipping two bytes. */
  method CopyPatched(source: seq<byte>) returns (out: seq<byte>)
    ensures out == PatchHeader(source)
  {
    var pos := 0;
    var chunk := source[pos..if |source| < 18 then |source| else 18];
    out := chunk;
    pos := pos + |chunk|;
    out := out + [1, 1];
    pos := if pos + 2 <= |source| then pos + 2 else |source|;
    out := out + source[pos..];
  }
}
