/** The SQLite layer shared by the stores: the three tables, the transaction
    clock, the NullTime wrapper that moves times in and out of the driver, and
    the two helpers that write the LIMIT/OFFSET and ORDER BY clauses. */
module Sqlite {
  import opened LaundryNotify
  import opened GoStrings
  import opened Relational

  /** A row of `user_events` as stored. `eventId` is None where the column is
      NULL, which is how a registration for the next cycle is written. */
  datatype UserEventRow = UserEventRow(id: int, userId: int, eventId: Option<int>, createdAt: Time, kind: string)

  function EventIdOf(e: Event): int { e.id }
  function UserEventIdOf(r: UserEventRow): int { r.id }
  function UserIdOf(u: User): int { u.id }

  /** INTEGER PRIMARY KEY columns: positive, and increasing in table order. */
  predicate WellKeyed<T>(rows: seq<T>, id: T -> int) {
    IdsIncreasing(rows, id) && forall i :: 0 <= i < |rows| ==> id(rows[i]) >= 1
  }

  /** UNIQUE on users.name. */
  predicate NamesUnique(users: seq<User>) {
    forall i, j :: 0 <= i < j < |users| ==> users[i].name != users[j].name
  }

  /** Whether a row with this user and this event already exists. A NULL event id
      never clashes, because SQLite treats NULLs as distinct in a UNIQUE index. */
  predicate RegistrationClash(rows: seq<UserEventRow>, userId: int, eventId: Option<int>) {
    eventId.Some? && exists i :: 0 <= i < |rows| && rows[i].userId == userId && rows[i].eventId == eventId
  }

  /** UNIQUE (user_id, event_id) on user_events. */
  predicate RegistrationsUnique(rows: seq<UserEventRow>) {
    forall i, j :: 0 <= i < j < |rows| && rows[i].eventId.Some? ==>
      !(rows[i].userId == rows[j].userId && rows[i].eventId == rows[j].eventId)
  }

  /** The contents of the three tables. */
  datatype Tables = Tables(events: seq<Event>, userEvents: seq<UserEventRow>, users: seq<User>)

  /** The table constraints every committed state satisfies. */
  predicate ValidTables(t: Tables) {
    && WellKeyed(t.events, EventIdOf)
    && WellKeyed(t.userEvents, UserEventIdOf)
    && WellKeyed(t.users, UserIdOf)
    && NamesUnique(t.users)
    && RegistrationsUnique(t.userEvents)
  }

  /** The database: one sequence of rows per table, in rowid order. */
  class DB {
    var events: seq<Event>
    var userEvents: seq<UserEventRow>
    var users: seq<User>

    function Contents(): Tables
      reads this
    {
      Tables(events, userEvents, users)
    }

    predicate Valid()
      reads this
    {
      ValidTables(Contents())
    }

    constructor ()
      ensures Valid()
      ensures events == [] && userEvents == [] && users == []
    {
      events, userEvents, users := [], [], [];
    }
  }

  /** The id SQLite assigns to the next row of a table. */
  function NextRowId<T>(rows: seq<T>, id: T -> int): (r: int)
    requires WellKeyed(rows, id)
    ensures r >= 1
    ensures forall i :: 0 <= i < |rows| ==> id(rows[i]) < r
  {
    NextId(rows, id)
  }

  /** Appending a row under the next id keeps the key well formed. */
  lemma AppendKeepsWellKeyed<T>(rows: seq<T>, id: T -> int, x: T)
    requires WellKeyed(rows, id)
    requires id(x) == NextRowId(rows, id)
    ensures WellKeyed(rows + [x], id)
  {
    AppendKeepsIdsIncreasing(rows, id, x);
  }

  /** Replacing a row by one with the same id keeps the key well formed. */
  lemma ReplaceKeepsWellKeyed<T>(rows: seq<T>, id: T -> int, k: int, x: T)
    requires WellKeyed(rows, id)
    requires 0 <= k < |rows| && id(x) == id(rows[k])
    ensures WellKeyed(rows[k := x], id)
  {
    var s := rows[k := x];
    forall i, j | 0 <= i < j < |s| ensures id(s[i]) < id(s[j]) {
      assert id(s[i]) == id(rows[i]) && id(s[j]) == id(rows[j]);
    }
  }

  /** The position of the row with the given id, when there is one. */
  function IndexOf<T>(rows: seq<T>, id: T -> int, key: int): (r: Option<nat>)
    ensures r.Some? ==> r.value < |rows| && id(rows[r.value]) == key
    ensures r.None? ==> forall i :: 0 <= i < |rows| ==> id(rows[i]) != key
  {
    if rows == [] then None
    else if id(rows[0]) == key then Some(0)
    else match IndexOf(rows[1..], id, key)
      case None => None
      case Some(k) => Some(k + 1)
  }

  /** With increasing ids, looking up a row's id finds that row. */
  lemma IndexOfIncreasing<T>(rows: seq<T>, id: T -> int, k: int)
    requires IdsIncreasing(rows, id) && 0 <= k < |rows|
    ensures IndexOf(rows, id, id(rows[k])) == Some(k)
  {
  }

  /** Tx.now: the clock, given in nanoseconds since the zero time, truncated
      to a whole second. */
  function TxNow(clockNanos: int): (t: Time)
    ensures t * 1000000000 <= clockNanos < t * 1000000000 + 1000000000
  {
    clockNanos / 1000000000
  }

  /** What the driver hands to Scan. */
  datatype DbValue =
    | DbNull
    | DbTime(t: Time)
    | DbText(s: string)
    | DbOther(typeName: string)  // any other Go type, by its `%T` name

  /** NullTime: a time that may be NULL. */
  class NullTime {
    var time: Time
    var valid: bool

    constructor (time: Time, valid: bool)
      ensures this.time == time && this.valid == valid
    {
      this.time := time;
      this.valid := valid;
    }

    /** Scan. A string is parsed as RFC 3339 and the parse error is dropped,
        so an unreadable string still yields a valid zero time. NULL clears
        `valid` but leaves `time` as it was. */
    method Scan(value: DbValue, parse: string -> Option<Time>) returns (err: Option<Error>)
      modifies this
      ensures value.DbTime? ==> err.None? && valid && time == value.t
      ensures value.DbText? ==> err.None? && valid && time == parse(value.s).GetOr(0)
      ensures value.DbNull? ==> err.None? && !valid && time == old(time)
      ensures value.DbOther? ==>
                err == Some(FmtError("NullTime: cannot scan to time.Time: " + value.typeName)) &&
                valid == old(valid) && time == old(time)
    {
      match value
      case DbTime(t) =>
        time := t;
        valid := true;
        err := None;
      case DbText(s) =>
        time := parse(s).GetOr(0);
        valid := true;
        err := None;
      case DbNull =>
        valid := false;
        err := None;
      case DbOther(typeName) =>
        err := Some(FmtError("NullTime: cannot scan to time.Time: " + typeName));
    }

    /** Whether the held time would be written as a value rather than NULL. */
    predicate Present()
      reads this
    {
      valid && time != 0
    }
  }

  /** NullTime.Value: NULL for a nil receiver, an invalid time or the zero
      time, otherwise the time written as RFC 3339 text. */
  function Value(n: NullTime?, format: Time -> string): (v: DbValue)
    reads n
    ensures v.DbNull? <==> n == null || !n.Present()
    ensures v.DbNull? || v == DbText(format(n.time))
  {
    if n == null || !n.valid || n.time == 0 then DbNull else DbText(format(n.time))
  }

  /** Writing a time with Value and scanning it back into a fresh NullTime
      gives a holder that is valid exactly when the original was present, with
      the same time, whenever parsing reads back what formatting wrote. */
  method ValueScanRoundTrip(n: NullTime?, format: Time -> string, parse: string -> Option<Time>)
    returns (valid: bool, time: Time)
    requires n != null ==> parse(format(n.time)) == Some(n.time)
    ensures valid <==> n != null && n.Present()
    ensures valid ==> time == n.time
  {
    var v := Value(n, format);
    var m := new NullTime(0, false);
    var err := m.Scan(v, parse);
    valid, time := m.valid, m.time;
  }

  /** Only positive values show up in the clause. */
  function Clamp(x: int): nat { if x > 0 then x else 0 }

  /** FormatLimitOffset. */
  function FormatLimitOffset(limit: int, offset: int): (clause: string)
    ensures limit > 0 && offset > 0 ==> clause == "LIMIT " + Decimal(limit) + " OFFSET " + Decimal(offset)
    ensures limit > 0 && offset <= 0 ==> clause == "LIMIT " + Decimal(limit)
    ensures limit <= 0 && offset > 0 ==> clause == "OFFSET " + Decimal(offset)
    ensures limit <= 0 && offset <= 0 ==> clause == ""
  {
    if limit > 0 && offset > 0 then "LIMIT " + FormatInt(limit) + " OFFSET " + FormatInt(offset)
    else if limit > 0 then "LIMIT " + FormatInt(limit)
    else if offset > 0 then "OFFSET " + FormatInt(offset)
    else ""
  }

  /** How SQLite reads such a clause back: the numbers after LIMIT and after
      OFFSET, 0 for a clause that is not there. */
  function ReadLimitOffset(clause: string): (int, int) {
    if |clause| >= 6 && clause[..6] == "LIMIT " then
      var digits := DigitRun(clause[6..]);
      var after := clause[6 + |digits|..];
      var offset := if |after| >= 8 && after[..8] == " OFFSET " then DigitsValue(DigitRun(after[8..])) else 0;
      (DigitsValue(digits), offset)
    else if |clause| >= 7 && clause[..7] == "OFFSET " then
      (0, DigitsValue(DigitRun(clause[7..])))
    else (0, 0)
  }

  /** Reading the clause back gives the positive values and 0 for the others:
      nothing but a positive limit or offset is ever written. */
  lemma LimitOffsetRoundTrip(limit: int, offset: int)
    ensures ReadLimitOffset(FormatLimitOffset(limit, offset)) == (Clamp(limit), Clamp(offset))
  {
    if limit > 0 && offset > 0 {
      ReadLimitAndOffset(limit, offset);
    } else if limit > 0 {
      ReadLimit(limit, "");
      assert FormatLimitOffset(limit, offset) == "LIMIT " + (Decimal(limit) + "");
    } else if offset > 0 {
      ReadOffset(offset, "OFFSET ");
      var clause := FormatLimitOffset(limit, offset);
      assert clause == "OFFSET " + Decimal(offset);
      assert clause[..6] != "LIMIT " by { assert clause[0] == 'O'; }
    }
  }

  lemma ReadLimitAndOffset(limit: nat, offset: nat)
    requires limit > 0 && offset > 0
    ensures ReadLimitOffset(FormatLimitOffset(limit, offset)) == (limit, offset)
  {
    var rest := " OFFSET " + Decimal(offset);
    var clause := "LIMIT " + (Decimal(limit) + rest);
    assert FormatLimitOffset(limit, offset) == clause;
    ReadLimit(limit, rest);
    ReadOffset(offset, " OFFSET ");
    var digits := DigitRun(clause[6..]);
    var after := clause[6 + |digits|..];
    assert after == rest;
    assert |after| >= 8 && after[..8] == " OFFSET ";
    var value := DigitsValue(DigitRun(after[8..]));
    assert value == offset;
    assert clause[..6] == "LIMIT ";
    assert ReadLimitOffset(clause) == (DigitsValue(digits), value);
  }

  /** The number after LIMIT is read back, and reading goes on after it. */
  lemma ReadLimit(limit: nat, rest: string)
    requires rest == [] || rest[0] == ' '
    ensures var clause := "LIMIT " + (Decimal(limit) + rest);
            var digits := DigitRun(clause[6..]);
            DigitsValue(digits) == limit && clause[6 + |digits|..] == rest
  {
    var d := Decimal(limit);
    var clause := "LIMIT " + (d + rest);
    assert clause[6..] == d + rest;
    DigitRunOf(d, rest);
    DecimalRoundTrip(limit);
  }

  /** The number after an OFFSET keyword is read back. */
  lemma ReadOffset(offset: nat, keyword: string)
    ensures var clause := keyword + Decimal(offset);
            DigitsValue(DigitRun(clause[|keyword|..])) == offset
  {
    var e := Decimal(offset);
    assert (keyword + e)[|keyword|..] == e + "";
    DigitRunOf(e, "");
    DecimalRoundTrip(offset);
  }

  /** Two calls write the same clause only for the same positive parts. */
  lemma FormatLimitOffsetInjective(l1: int, o1: int, l2: int, o2: int)
    requires FormatLimitOffset(l1, o1) == FormatLimitOffset(l2, o2)
    ensures Clamp(l1) == Clamp(l2) && Clamp(o1) == Clamp(o2)
  {
    LimitOffsetRoundTrip(l1, o1);
    LimitOffsetRoundTrip(l2, o2);
  }

  /** FormatOrderBy. */
  function FormatOrderBy(orderBy: seq<string>): (clause: string)
    ensures orderBy == [] <==> clause == ""
    ensures orderBy != [] ==> clause == "ORDER BY " + Join(orderBy, ", ")
  {
    if orderBy == [] then "" else "ORDER BY " + Join(orderBy, ", ")
  }

  /** Each piece after the first with its leading blank taken off. */
  function Unpad(pieces: seq<string>): (r: seq<string>)
    ensures |r| == |pieces|
  {
    seq(|pieces|, i requires 0 <= i < |pieces| =>
      if i > 0 && |pieces[i]| > 0 && pieces[i][0] == ' ' then pieces[i][1..] else pieces[i])
  }

  /** The items of an ORDER BY clause, cut at the commas. */
  function ReadOrderBy(clause: string): seq<string> {
    if |clause| >= 9 && clause[..9] == "ORDER BY " then Unpad(Split(clause[9..], ',')) else []
  }

  /** The clause lists the items in their order: reading it back gives them
      again, as long as no item holds a comma. */
  lemma OrderByRoundTrip(orderBy: seq<string>)
    requires forall i :: 0 <= i < |orderBy| ==> ',' !in orderBy[i]
    ensures ReadOrderBy(FormatOrderBy(orderBy)) == orderBy
  {
    if orderBy != [] {
      var clause := FormatOrderBy(orderBy);
      assert ", " == [','] + " ";
      assert clause[9..] == "" + Join(orderBy, [','] + " ");
      SplitJoin("", orderBy, ',', " ");
      assert "" + orderBy[0] == orderBy[0];
      var pieces := Split(clause[9..], ',');
      assert pieces == [orderBy[0]] + Prefixed(" ", orderBy[1..]);
      var r := Unpad(pieces);
      forall i | 0 <= i < |orderBy| ensures r[i] == orderBy[i] {
        if i > 0 {
          assert pieces[i] == " " + orderBy[i];
          assert pieces[i][1..] == orderBy[i];
        }
      }
    }
  }

  /** The case folding LIKE applies: ASCII letters only. */
  function Lower(c: char): char {
    if 'A' <= c <= 'Z' then (c as int + 32) as char else c
  }

  function Fold(s: string): (r: string)
    ensures |r| == |s| && forall i :: 0 <= i < |s| ==> r[i] == Lower(s[i])
  {
    seq(|s|, i requires 0 <= i < |s| => Lower(s[i]))
  }

  /** `s LIKE pattern` without an ESCAPE clause: `%` matches any run of
      characters, `_` any one character, and letters match either case. */
  function Like(pattern: string, s: string): bool
    decreases |pattern| + |s|
  {
    if pattern == [] then s == []
    else if pattern[0] == '%' then Like(pattern[1..], s) || (s != [] && Like(pattern, s[1..]))
    else s != [] && (pattern[0] == '_' || Lower(pattern[0]) == Lower(s[0])) && Like(pattern[1..], s[1..])
  }

  predicate NoWildcards(s: string) {
    '%' !in s && '_' !in s
  }

  /** `s` holds `part` somewhere, ignoring the case of ASCII letters. */
  predicate ContainsFolded(s: string, part: string) {
    exists k :: 0 <= k <= |s| && FoldedAt(s, part, k)
  }

  /** `part` occurs at position `k` of `s`, ignoring ASCII case. */
  predicate FoldedAt(s: string, part: string, k: int)
    requires 0 <= k <= |s|
  {
    |part| <= |s| - k && Fold(s[k..k + |part|]) == Fold(part)
  }

  /** `%` alone matches everything. */
  lemma {:induction false} LikeAnything(s: string)
    ensures Like("%", s)
  {
    if s != [] {
      LikeAnything(s[1..]);
    }
  }

  /** A literal followed by `%` matches the strings that start with it. */
  lemma {:induction false} LikeLiteralPrefix(literal: string, s: string)
    requires NoWildcards(literal)
    ensures Like(literal + "%", s) <==> |literal| <= |s| && Fold(s[..|literal|]) == Fold(literal)
  {
    if literal == [] {
      assert literal + "%" == "%";
      LikeAnything(s);
      assert Fold(s[..0]) == Fold(literal);
    } else {
      assert (literal + "%")[1..] == literal[1..] + "%";
      assert literal[0] in literal;
      if s != [] {
        LikeLiteralPrefix(literal[1..], s[1..]);
        if |literal| <= |s| {
          var a, b := Fold(s[..|literal|]), Fold(literal);
          assert s[1..][..|literal[1..]|] == s[..|literal|][1..];
          assert a == b <==> a[0] == b[0] && a[1..] == b[1..];
          assert a[1..] == Fold(s[1..][..|literal[1..]|]);
          assert b[1..] == Fold(literal[1..]);
        }
      }
    }
  }

  /** `%` in front lets the rest match from any position. */
  lemma {:induction false} LikeAnyStart(rest: string, s: string)
    ensures Like("%" + rest, s) <==> exists k :: 0 <= k <= |s| && Like(rest, s[k..])
  {
    var p := "%" + rest;
    assert p[1..] == rest;
    if s == [] {
      assert s[0..] == s;
    } else {
      LikeAnyStart(rest, s[1..]);
      assert s[0..] == s;
      if exists k :: 0 <= k <= |s| && Like(rest, s[k..]) {
        var k :| 0 <= k <= |s| && Like(rest, s[k..]);
        if k > 0 {
          assert s[1..][k - 1..] == s[k..];
        }
      }
      if exists k :: 0 <= k <= |s[1..]| && Like(rest, s[1..][k..]) {
        var k :| 0 <= k <= |s[1..]| && Like(rest, s[1..][k..]);
        assert s[1..][k..] == s[k + 1..];
      }
    }
  }

  /** `name LIKE '%part%'` is a search for `part` anywhere in the name,
      ignoring ASCII case, when `part` holds no wildcard. */
  lemma LikeContains(part: string, s: string)
    requires NoWildcards(part)
    ensures Like("%" + part + "%", s) <==> ContainsFolded(s, part)
  {
    assert "%" + part + "%" == "%" + (part + "%");
    LikeAnyStart(part + "%", s);
    forall k | 0 <= k <= |s|
      ensures Like(part + "%", s[k..]) <==> FoldedAt(s, part, k)
    {
      LikeLiteralPrefix(part, s[k..]);
      if k <= |s| - |part| {
        assert s[k..][..|part|] == s[k..k + |part|];
      }
    }
  }
}
