/**
  One active match per pair of members: `canonicalPair` (`apps/api/src/models/match.model.ts`) and
  the guards of the `matches` table (`apps/api/src/migrations/20260929120100-create-matches.ts`).
  The program orders two members by comparing UUID texts, the database compares their 16 bytes.
 */
module Matches {
  import opened TextOrder
  import opened Wrappers

  type Byte = n: nat | n < 256

  /** A `uuid` value of the database. */
  type Uuid = u: seq<Byte> | |u| == 16 witness seq(16, i => 0)

  // ---- UUID texts (RFC 9562 section 4) -------------------------------------------------------

  function HexDigit(n: nat): char
    requires n < 16
  {
    if n < 10 then '0' + n as char else 'a' + (n - 10) as char
  }

  /** The value of a hex digit in either case. */
  function HexValue(c: char): (r: Option<nat>)
    ensures r.Some? ==> r.value < 16 && LowerChar(c) == HexDigit(r.value)
  {
    if '0' <= c <= '9' then Some((c - '0') as nat)
    else if 'a' <= c <= 'f' then Some((c - 'a') as nat + 10)
    else if 'A' <= c <= 'F' then Some((c - 'A') as nat + 10)
    else None
  }

  function Hex(b: Byte): string { [HexDigit(b / 16), HexDigit(b % 16)] }

  /** What stands before a byte when `n` bytes are still to be written: 8-4-4-4-12 hex digits. */
  function Hyphen(n: nat): string { if n == 12 || n == 10 || n == 8 || n == 6 then "-" else "" }

  /** The lowercase text of the last `|rest|` bytes of a UUID. */
  function TextOf(rest: seq<Byte>): string {
    if rest == [] then "" else Hyphen(|rest|) + Hex(rest[0]) + TextOf(rest[1..])
  }

  /** Reads the last `n` bytes of a UUID, in letters of either case. */
  function Parse(s: string, n: nat): (r: Option<seq<Byte>>)
    ensures r.Some? ==> |r.value| == n
  {
    if n == 0 then if s == "" then Some([]) else None
    else
      var h := |Hyphen(n)|;
      if |s| < h + 2 || s[..h] != Hyphen(n) then None
      else
        Prepend(HexValue(s[h]), HexValue(s[h + 1]), Parse(s[h + 2..], n - 1))
  }

  /** Puts the byte of two hex digits in front, if all three could be read. */
  function Prepend(x: Option<nat>, y: Option<nat>, rest: Option<seq<Byte>>): (r: Option<seq<Byte>>)
    requires (x.Some? ==> x.value < 16) && (y.Some? ==> y.value < 16)
    ensures r.Some? ==> rest.Some? && |r.value| == |rest.value| + 1
  {
    if x.Some? && y.Some? && rest.Some? then Some([16 * x.value + y.value] + rest.value) else None
  }

  function LowerChar(c: char): char {
    if 'A' <= c <= 'Z' then c - 'A' + 'a' else c
  }

  /** `toLowerCase()` on ASCII text. */
  function ToLower(s: string): string {
    seq(|s|, i requires 0 <= i < |s| => LowerChar(s[i]))
  }

  /** The bytes of a UUID, compared as PostgreSQL does. */
  predicate BytesLess(a: seq<Byte>, b: seq<Byte>)
    requires |a| == |b|
  {
    a != [] && (a[0] < b[0] || (a[0] == b[0] && BytesLess(a[1..], b[1..])))
  }

  lemma HexOrder(x: Byte, y: Byte)
    ensures Less(Hex(x), Hex(y)) <==> x < y
    ensures Hex(x) == Hex(y) <==> x == y
  {
    assert Hex(x)[1..] == [HexDigit(x % 16)] && Hex(y)[1..] == [HexDigit(y % 16)];
    assert Less(Hex(x)[1..], Hex(y)[1..]) <==> x % 16 < y % 16;
  }

  /** String order of lowercase UUID texts is byte order, and different UUIDs have different texts. */
  lemma {:induction false} TextOrderIsByteOrder(a: seq<Byte>, b: seq<Byte>)
    requires |a| == |b|
    ensures Less(TextOf(a), TextOf(b)) <==> BytesLess(a, b)
    ensures TextOf(a) == TextOf(b) <==> a == b
  {
    if a != [] {
      var h, x, y := Hyphen(|a|), Hex(a[0]), Hex(b[0]);
      var s, t := TextOf(a[1..]), TextOf(b[1..]);
      TextOrderIsByteOrder(a[1..], b[1..]);
      HexOrder(a[0], b[0]);
      LessOfConcat(h + x, h + y, s, t);
      LessOfConcat(h, h, x, y);
      Trichotomy(h, h);
      assert (h + x)[|h|..] == x && (h + y)[|h|..] == y;
      assert (h + x + s)[..|h| + 2] == h + x && (h + y + t)[..|h| + 2] == h + y;
      assert (h + x + s)[|h| + 2..] == s && (h + y + t)[|h| + 2..] == t;
      assert a == [a[0]] + a[1..] && b == [b[0]] + b[1..];
    }
  }

  /** Case folding changes no hyphen and no digit's value. */
  lemma LowerHex(c: char, n: nat)
    requires n < 16
    ensures HexValue(c) == Some(n) <==> LowerChar(c) == HexDigit(n)
    ensures LowerChar(c) == '-' <==> c == '-'
  {
  }

  /** Three parts of known lengths are compared one by one. */
  lemma PartsAgree(a: string, b: string, c: string, x: string, y: string, z: string)
    requires |a| == |x| && |b| == |y|
    ensures a + b + c == x + y + z <==> a == x && b == y && c == z
  {
    if a + b + c == x + y + z {
      assert a == (a + b + c)[..|a|] == x;
      assert b == (a + b + c)[|a|..|a| + |b|] == y;
      assert c == (a + b + c)[|a| + |b|..] == z;
    }
  }

  lemma LowerOfHyphen(n: nat, front: string)
    requires |front| == |Hyphen(n)|
    ensures ToLower(front) == Hyphen(n) <==> front == Hyphen(n)
  {
    if front != "" {
      LowerHex(front[0], 0);
      assert front == [front[0]] && ToLower(front) == [LowerChar(front[0])];
    }
  }

  /** One byte at the front of a text. */
  lemma LowerOfByte(s: string, n: nat, b: Byte, t: string)
    ensures
      var h := |Hyphen(n)|;
      ToLower(s) == Hyphen(n) + Hex(b) + t <==>
      && |s| >= h + 2
      && s[..h] == Hyphen(n)
      && HexValue(s[h]) == Some(b / 16)
      && HexValue(s[h + 1]) == Some(b % 16)
      && ToLower(s[h + 2..]) == t
  {
    hide Hyphen, HexValue, LowerChar, HexDigit;
    var h := |Hyphen(n)|;
    if |s| >= h + 2 {
      var front, digits, rest := s[..h], [s[h], s[h + 1]], s[h + 2..];
      assert s == front + digits + rest;
      assert ToLower(s) == ToLower(front) + ToLower(digits) + ToLower(rest);
      PartsAgree(ToLower(front), ToLower(digits), ToLower(rest), Hyphen(n), Hex(b), t);
      LowerOfHyphen(n, front);
      LowerHex(s[h], b / 16);
      LowerHex(s[h + 1], b % 16);
      assert ToLower(digits) == [LowerChar(s[h]), LowerChar(s[h + 1])];
    } else {
      assert |ToLower(s)| < |Hyphen(n) + Hex(b) + t|;
    }
  }

  lemma FirstByte(x: Option<nat>, y: Option<nat>, tail: Option<seq<Byte>>, bytes: seq<Byte>)
    requires (x.Some? ==> x.value < 16) && (y.Some? ==> y.value < 16) && bytes != []
    ensures Prepend(x, y, tail) == Some(bytes) <==>
            x == Some(bytes[0] / 16) && y == Some(bytes[0] % 16) && tail == Some(bytes[1..])
  {
    assert bytes == [bytes[0]] + bytes[1..];
    if x.Some? && y.Some? && tail.Some? {
      assert ([16 * x.value + y.value] + tail.value)[1..] == tail.value;
    }
  }

  /** Reading undoes writing, in letters of either case, and reads nothing else. */
  lemma {:induction false} ParseUndoesTextOf(s: string, n: nat, rest: seq<Byte>)
    ensures Parse(s, n) == Some(rest) <==> |rest| == n && ToLower(s) == TextOf(rest)
    decreases n
  {
    if n > 0 && |rest| == n {
      hide Hyphen, HexValue, Hex, ToLower, Prepend;
      var h, tail := |Hyphen(n)|, rest[1..];
      LowerOfByte(s, n, rest[0], TextOf(tail));
      if |s| >= h + 2 {
        ParseUndoesTextOf(s[h + 2..], n - 1, tail);
        FirstByte(HexValue(s[h]), HexValue(s[h + 1]), Parse(s[h + 2..], n - 1), rest);
      }
    }
  }

  // ---- canonicalPair -------------------------------------------------------------------------

  datatype Pair = Pair(userAId: string, userBId: string)

  function CanonicalPair(a: string, b: string): Pair {
    var x, y := ToLower(a), ToLower(b);
    if Less(x, y) then Pair(x, y) else Pair(y, x)
  }

  /** The pair is the key of the unordered pair: who asks, and in which letter case, does not matter. */
  lemma CanonicalPairIsUnordered(a: string, b: string, c: string, d: string)
    ensures CanonicalPair(a, b) == CanonicalPair(c, d) <==>
            (ToLower(a), ToLower(b)) == (ToLower(c), ToLower(d)) ||
            (ToLower(a), ToLower(b)) == (ToLower(d), ToLower(c))
  {
    hide Less, ToLower;
    Trichotomy(ToLower(a), ToLower(b));
    Trichotomy(ToLower(c), ToLower(d));
  }

  /** `s` is the text of `u`, in letters of either case. */
  predicate Denotes(s: string, u: Uuid) { Parse(s, 16) == Some(u) }

  /**
    For two UUID texts the pair holds the two members, and as the database reads it the smaller one
    comes first, so `user_a_id < user_b_id` holds exactly when the members differ.
   */
  lemma CanonicalPairIsOrdered(a: string, b: string, u: Uuid, v: Uuid)
    requires Denotes(a, u) && Denotes(b, v)
    ensures
      var p := CanonicalPair(a, b);
      && p == Pair(TextOf(Smaller(u, v)), TextOf(Larger(u, v)))
      && Denotes(p.userAId, Smaller(u, v)) && Denotes(p.userBId, Larger(u, v))
    ensures BytesLess(Smaller(u, v), Larger(u, v)) <==> u != v
    ensures {Smaller(u, v), Larger(u, v)} == {u, v}
  {
    ParseUndoesTextOf(a, 16, u);
    ParseUndoesTextOf(b, 16, v);
    TextOrderIsByteOrder(u, v);
    TextOrderIsByteOrder(v, u);
    Trichotomy(TextOf(u), TextOf(v));
    LowerIsLower(u);
    LowerIsLower(v);
    ParseUndoesTextOf(TextOf(u), 16, u);
    ParseUndoesTextOf(TextOf(v), 16, v);
  }

  function Smaller(u: Uuid, v: Uuid): Uuid { if BytesLess(u, v) then u else v }
  function Larger(u: Uuid, v: Uuid): Uuid { if BytesLess(u, v) then v else u }

  lemma {:induction false} LowerIsLower(rest: seq<Byte>)
    ensures ToLower(TextOf(rest)) == TextOf(rest)
  {
    if rest != [] {
      LowerIsLower(rest[1..]);
      var front := Hyphen(|rest|) + Hex(rest[0]);
      assert ToLower(front) == front;
      assert ToLower(front + TextOf(rest[1..])) == ToLower(front) + ToLower(TextOf(rest[1..]));
    }
  }

  // ---- The table -----------------------------------------------------------------------------

  datatype Status = Active | Unmatched | Blocked | Closed

  datatype Row = Row(userA: Uuid, userB: Uuid, status: Status) {
    function Members(): set<Uuid> { {userA, userB} }
  }

  type Table = map<nat, Row>

  /** What can be sent to the table; `Create` is an insert of `canonicalPair`. */
  datatype Change =
    | Insert(id: nat, userA: Uuid, userB: Uuid)
    | Create(id: nat, a: string, b: string)
    | SetStatus(id: nat, status: Status)
    | Delete(id: nat)

  /** The partial unique index would hold `row` next to the other rows. */
  predicate IndexAdmits(t: Table, id: nat, row: Row) {
    row.status == Active ==>
      forall i | i in t && i != id :: t[i].status == Active ==> (t[i].userA, t[i].userB) != (row.userA, row.userB)
  }

  /** An insert, refused by the primary key, the CHECK or the index. */
  function Inserted(t: Table, id: nat, userA: Uuid, userB: Uuid): Table {
    var row := Row(userA, userB, Active);
    if id !in t && BytesLess(userA, userB) && IndexAdmits(t, id, row) then t[id := row] else t
  }

  function Apply(t: Table, change: Change): Table {
    match change
    case Insert(id, userA, userB) => Inserted(t, id, userA, userB)
    case Create(id, a, b) => Created(t, id, a, b)
    case SetStatus(id, status) =>
      if id in t && IndexAdmits(t, id, t[id].(status := status)) then t[id := t[id].(status := status)] else t
    case Delete(id) => t - {id}
  }

  /** `Match.create({ ...canonicalPair(a, b), … })`; a text that is no UUID is refused. */
  function Created(t: Table, id: nat, a: string, b: string): Table {
    var pair := CanonicalPair(a, b);
    match (Parse(pair.userAId, 16), Parse(pair.userBId, 16))
    case (Some(userA), Some(userB)) => Inserted(t, id, userA, userB)
    case _ => t
  }

  function Run(t: Table, changes: seq<Change>): Table
    decreases |changes|
  {
    if changes == [] then t else Run(Apply(t, changes[0]), changes[1..])
  }

  /** Stored rows are in canonical order, and no two active ones share a key. */
  ghost predicate Guarded(t: Table) {
    && (forall i | i in t :: BytesLess(t[i].userA, t[i].userB))
    && (forall i, j | i in t && j in t && i != j && t[i].status == Active && t[j].status == Active ::
          (t[i].userA, t[i].userB) != (t[j].userA, t[j].userB))
  }

  lemma {:induction false} RunKeepsGuarded(t: Table, changes: seq<Change>)
    requires Guarded(t)
    ensures Guarded(Run(t, changes))
    decreases |changes|
  {
    if changes != [] { RunKeepsGuarded(Apply(t, changes[0]), changes[1..]); }
  }

  lemma {:induction false} BytesLessIsAsymmetric(a: seq<Byte>, b: seq<Byte>)
    requires |a| == |b|
    ensures !(BytesLess(a, b) && BytesLess(b, a))
  {
    if a != [] { BytesLessIsAsymmetric(a[1..], b[1..]); }
  }

  /** In a guarded table the key of a row is the unordered pair of its members. */
  lemma KeyIsMembers(t: Table, i: nat, row: Row)
    requires Guarded(t) && i in t && BytesLess(row.userA, row.userB)
    ensures t[i].Members() == row.Members() <==> (t[i].userA, t[i].userB) == (row.userA, row.userB)
  {
    BytesLessIsAsymmetric(row.userA, row.userB);
    if t[i].Members() == row.Members() {
      assert t[i].userA in row.Members() && t[i].userB in row.Members();
      assert row.userA in t[i].Members() && row.userB in t[i].Members();
    }
  }

  /** The promise: whatever is sent to the table, two members never have two active matches. */
  lemma OneActiveMatchPerPair(changes: seq<Change>, i: nat, j: nat)
    requires
      var t := Run(map[], changes);
      && i in t && j in t && t[i].status == Active && t[j].status == Active
      && t[i].Members() == t[j].Members()
    ensures i == j
  {
    RunKeepsGuarded(map[], changes);
    var t := Run(map[], changes);
    KeyIsMembers(t, i, t[j]);
  }

  /** Row `i` is an active match of the two members, in either order. */
  predicate Joins(t: Table, i: nat, u: Uuid, v: Uuid) {
    i in t && t[i].status == Active && t[i].Members() == {u, v}
  }

  /** The guards let a canonical row in exactly when its members differ and have no active match. */
  lemma GuardsAdmitExactlyWhenFree(t: Table, id: nat, u: Uuid, v: Uuid)
    requires Guarded(t) && id !in t
    requires BytesLess(Smaller(u, v), Larger(u, v)) <==> u != v
    ensures
      var row := Row(Smaller(u, v), Larger(u, v), Active);
      Inserted(t, id, row.userA, row.userB) ==
      if u != v && !exists i: nat :: Joins(t, i, u, v) then t[id := row] else t
  {
    var row := Row(Smaller(u, v), Larger(u, v), Active);
    hide BytesLess;
    if u != v {
      assert row.Members() == {u, v};
      forall i: nat | i in t
        ensures Joins(t, i, u, v) <==> t[i].status == Active && (t[i].userA, t[i].userB) == (row.userA, row.userB)
      {
        KeyIsMembers(t, i, row);
      }
    }
  }

  /**
    `canonicalPair` meets the guards: a new match is stored exactly when the members differ and have
    no active match, whichever of them was stored first and however their ids are spelled.
   */
  lemma CreateStoresExactlyWhenFree(changes: seq<Change>, id: nat, a: string, b: string, u: Uuid, v: Uuid)
    requires Denotes(a, u) && Denotes(b, v)
    requires id !in Run(map[], changes)
    ensures
      var t := Run(map[], changes);
      var after := Run(map[], changes + [Create(id, a, b)]);
      after == if u != v && !exists i: nat :: Joins(t, i, u, v)
               then t[id := Row(Smaller(u, v), Larger(u, v), Active)]
               else t
  {
    var t := Run(map[], changes);
    RunKeepsGuarded(map[], changes);
    RunOfConcat(map[], changes, [Create(id, a, b)]);
    assert Run(t, [Create(id, a, b)]) == Created(t, id, a, b);
    CanonicalPairIsOrdered(a, b, u, v);
    assert Created(t, id, a, b) == Inserted(t, id, Smaller(u, v), Larger(u, v));
    hide Run, Guarded, BytesLess, CanonicalPair, TextOf, Parse, Inserted, Smaller, Larger, Joins;
    GuardsAdmitExactlyWhenFree(t, id, u, v);
  }

  /** A member paired with itself is refused, in whatever table. */
  lemma SelfPairIsRefused(changes: seq<Change>, id: nat, u: Uuid)
    requires id !in Run(map[], changes)
    ensures Run(map[], changes + [Create(id, TextOf(u), TextOf(u))]) == Run(map[], changes)
  {
    LowerIsLower(u);
    ParseUndoesTextOf(TextOf(u), 16, u);
    hide Run, TextOf, Parse, Joins;
    CreateStoresExactlyWhenFree(changes, id, TextOf(u), TextOf(u), u, u);
  }

  lemma EndedIsFree(t: Table, t': Table, i: nat, status: Status, u: Uuid, v: Uuid)
    requires Guarded(t) && Joins(t, i, u, v) && status != Active && t' == Apply(t, SetStatus(i, status))
    ensures t' == t[i := t[i].(status := status)]
    ensures u != v && !exists j: nat :: Joins(t', j, u, v)
  {
    hide BytesLess;
    forall j: nat | j in t && j != i && t[j].status == Active { KeyIsMembers(t, j, t[i]); }
    BytesLessIsAsymmetric(t[i].userA, t[i].userB);
    assert t[i].userA in {u, v} && t[i].userB in {u, v};
  }

  /** After a match has ended, and only then, its pair may match again. */
  lemma EndingFreesThePair(
    changes: seq<Change>, i: nat, status: Status, id: nat, a: string, b: string, u: Uuid, v: Uuid)
    requires Denotes(a, u) && Denotes(b, v) && Joins(Run(map[], changes), i, u, v) && status != Active
    requires id !in Run(map[], changes)
    ensures
      var t := Run(map[], changes);
      && Run(map[], changes + [Create(id, a, b)]) == t
      && Run(map[], changes + [SetStatus(i, status)] + [Create(id, a, b)]) ==
         t[i := t[i].(status := status)][id := Row(Smaller(u, v), Larger(u, v), Active)]
  {
    var t, ended := Run(map[], changes), changes + [SetStatus(i, status)];
    RunOfConcat(map[], changes, [SetStatus(i, status)]);
    assert Run(t, [SetStatus(i, status)]) == Apply(t, SetStatus(i, status));
    RunKeepsGuarded(map[], changes);
    EndedIsFree(t, Apply(t, SetStatus(i, status)), i, status, u, v);
    hide Run, Guarded, Apply, Smaller, Larger, Denotes, Joins;
    CreateStoresExactlyWhenFree(changes, id, a, b, u, v);
    CreateStoresExactlyWhenFree(ended, id, a, b, u, v);
  }

  /** Looking a pair up by `canonicalPair` finds its active match in either order. */
  lemma LookupFindsEitherOrder(changes: seq<Change>, i: nat, a: string, b: string, u: Uuid, v: Uuid)
    requires Denotes(a, u) && Denotes(b, v)
    ensures
      var t := Run(map[], changes);
      var pair := CanonicalPair(a, b);
      Joins(t, i, u, v) <==>
      i in t && t[i].status == Active && Denotes(pair.userAId, t[i].userA) && Denotes(pair.userBId, t[i].userB)
  {
    var t, row := Run(map[], changes), Row(Smaller(u, v), Larger(u, v), Active);
    RunKeepsGuarded(map[], changes);
    CanonicalPairIsOrdered(a, b, u, v);
    if i in t && u != v { KeyIsMembers(t, i, row); }
  }

  lemma {:induction false} RunOfConcat(t: Table, first: seq<Change>, second: seq<Change>)
    ensures Run(t, first + second) == Run(Run(t, first), second)
    decreases |first|
  {
    if first == [] {
      assert first + second == second;
    } else {
      assert (first + second)[1..] == first[1..] + second;
      RunOfConcat(Apply(t, first[0]), first[1..], second);
    }
  }
}
