/** The pure core of the request utilities: building the approver table from
    the spreadsheet rows, resolving who must approve a request, and the small
    string helpers used when the request card is posted. */
module Utils {
  import opened Seqs

  /** Why an operation fails where the source throws a TypeError. */
  datatype Error =
    | MissingRole(row: nat)      // a sheet row with fewer than four cells: its role is undefined
    | MissingEntry(key: string)  // destructuring `data[key]` when the table has no such key

  datatype Result<T> = Success(value: T) | Failure(error: Error)

  datatype Option<T> = None | Some(value: T)

  /** Position names as they are written in the spreadsheet. */
  const STAFF: string := "Nhân viên"
  const MANAGER: string := "Quản lý"

  /** Table keys with a fixed meaning: the board of directors and HR. */
  const BOD: string := "bod"
  const HR: string := "hr"

  // ---------------------------------------------------------------------
  // Lower-casing (ASCII letters only)
  // ---------------------------------------------------------------------

  predicate IsUpper(c: char) {
    'A' <= c <= 'Z'
  }

  function LowerChar(c: char): (d: char)
    ensures !IsUpper(d)
    ensures IsUpper(c) ==> d as int == c as int + 32
    ensures !IsUpper(c) ==> d == c
  {
    if IsUpper(c) then (c as int + 32) as char else c
  }

  /** `s.toLowerCase()` restricted to ASCII: no upper-case letter is left,
      every other character is kept. */
  function Lower(s: string): (r: string)
    ensures |r| == |s|
    ensures forall i :: 0 <= i < |r| ==> !IsUpper(r[i])
    ensures forall i :: 0 <= i < |r| && !IsUpper(s[i]) ==> r[i] == s[i]
    ensures forall i :: 0 <= i < |s| && IsUpper(s[i]) ==> r[i] as int == s[i] as int + 32
  {
    seq(|s|, i requires 0 <= i < |s| => LowerChar(s[i]))
  }

  /** A string without upper-case letters is its own lower-case form. */
  lemma LowerOfLowerCase(s: string)
    requires forall i :: 0 <= i < |s| ==> !IsUpper(s[i])
    ensures Lower(s) == s
  {
  }

  /** Lower-casing twice is lower-casing once. */
  lemma LowerIdempotent(s: string)
    ensures Lower(Lower(s)) == Lower(s)
  {
    LowerOfLowerCase(Lower(s));
  }

  // ---------------------------------------------------------------------
  // The approver table built from the "confirm-request" sheet
  // ---------------------------------------------------------------------

  /** The ids allowed to approve for one role: staff-level and manager-level. */
  datatype Approvers = Approvers(employees: seq<string>, managers: seq<string>)

  /** Lower-cased role (department) to its approvers. */
  type DataMention = map<string, Approvers>

  /** One sheet row: `[id, name, position, role, ...]`. */
  type Row = seq<string>

  /** The row has a role cell, so `role.toLowerCase()` does not throw. */
  predicate HasRole(row: Row) {
    |row| >= 4
  }

  predicate AllHaveRole(rows: seq<Row>) {
    forall i :: 0 <= i < |rows| ==> HasRole(rows[i])
  }

  function RoleKey(row: Row): string
    requires HasRole(row)
  {
    Lower(row[3])
  }

  /** The row lists `id` under table key `key` with position `position`. */
  predicate Lists(row: Row, key: string, position: string, id: string) {
    HasRole(row) && RoleKey(row) == key && row[2] == position && row[0] == id
  }

  /** The first row without a role cell, or -1 when every row has one. */
  function FirstWithoutRole(rows: seq<Row>): (r: int)
    ensures -1 <= r < |rows|
    ensures r == -1 <==> AllHaveRole(rows)
    ensures 0 <= r ==> !HasRole(rows[r])
    ensures forall k :: 0 <= k < |rows| && !HasRole(rows[k]) ==> 0 <= r <= k
  {
    if rows == [] then -1
    else if !HasRole(rows[0]) then 0
    else
      var i := FirstWithoutRole(rows[1..]);
      if i == -1 then -1 else i + 1
  }

  /** The ids, in row order, of the rows whose role is `key` and whose
      position is `position`. */
  function IdsOf(rows: seq<Row>, key: string, position: string): (ids: seq<string>)
    requires AllHaveRole(rows)
    ensures |ids| <= |rows|
    ensures forall id :: id in ids <==> exists i :: 0 <= i < |rows| && Lists(rows[i], key, position, id)
  {
    if rows == [] then []
    else
      var init, last := rows[..|rows| - 1], rows[|rows| - 1];
      assert forall i :: 0 <= i < |init| ==> init[i] == rows[i];
      IdsOf(init, key, position) + (if Lists(last, key, position, last[0]) then [last[0]] else [])
  }

  /** Every role that occurs in the rows, lower-cased. */
  function RoleKeys(rows: seq<Row>): set<string>
    requires AllHaveRole(rows)
  {
    set i | 0 <= i < |rows| :: RoleKey(rows[i])
  }

  /** The table `getDataMention` builds, stated key by key rather than as a
      fold: one entry per role, its staff ids and its manager ids in row order. */
  function MentionTable(rows: seq<Row>): DataMention
    requires AllHaveRole(rows)
  {
    map k | k in RoleKeys(rows) :: Approvers(IdsOf(rows, k, STAFF), IdsOf(rows, k, MANAGER))
  }

  /** A row appended to the sheet touches its own role's entry only: the entry
      is created when missing, and the row's id is appended to the employees
      for a staff row, to the managers for a manager row, and to neither for
      any other position. */
  lemma MentionTableSnoc(rows: seq<Row>, row: Row)
    requires AllHaveRole(rows) && HasRole(row)
    ensures AllHaveRole(rows + [row])
    ensures var t, k := MentionTable(rows), RoleKey(row);
            var e := if k in t then t[k] else Approvers([], []);
            MentionTable(rows + [row])
            == t[k := Approvers(e.employees + (if row[2] == STAFF then [row[0]] else []),
                                e.managers + (if row[2] == MANAGER then [row[0]] else []))]
  {
    var rows' := rows + [row];
    assert rows'[..|rows'| - 1] == rows && rows'[|rows'| - 1] == row;
    var t, t', k := MentionTable(rows), MentionTable(rows'), RoleKey(row);
    var e := if k in t then t[k] else Approvers([], []);
    var expected := t[k := Approvers(e.employees + (if row[2] == STAFF then [row[0]] else []),
                                     e.managers + (if row[2] == MANAGER then [row[0]] else []))];
    assert RoleKeys(rows') == RoleKeys(rows) + {k} by {
      forall k' | k' in RoleKeys(rows') ensures k' in RoleKeys(rows) + {k} {
        var i :| 0 <= i < |rows'| && RoleKey(rows'[i]) == k';
        if i < |rows| { assert rows'[i] == rows[i]; }
      }
      forall k' | k' in RoleKeys(rows) ensures k' in RoleKeys(rows') {
        var i :| 0 <= i < |rows| && RoleKey(rows[i]) == k';
        assert rows'[i] == rows[i];
      }
      assert rows'[|rows|] == row;
    }
    forall k' | k' in t'.Keys ensures t'[k'] == expected[k'] {
      if k' == k && k !in t {
        IdsOfUnknownKey(rows, k, STAFF);
        IdsOfUnknownKey(rows, k, MANAGER);
      }
    }
    assert t' == expected;
  }

  /** A key no row carries has no ids. */
  lemma IdsOfUnknownKey(rows: seq<Row>, key: string, position: string)
    requires AllHaveRole(rows) && key !in RoleKeys(rows)
    ensures IdsOf(rows, key, position) == []
  {
  }

  /** `getDataMention` with the sheet read passed in: undefined rows give an
      empty table; a row without a role cell makes `role.toLowerCase()` throw;
      otherwise the loop over the rows yields exactly `MentionTable`. */
  method GetDataMention(sheet: Option<seq<Row>>) returns (r: Result<DataMention>)
    ensures sheet.None? ==> r == Success(map[])
    ensures sheet.Some? && AllHaveRole(sheet.value) ==> r == Success(MentionTable(sheet.value))
    ensures sheet.Some? && !AllHaveRole(sheet.value)
            ==> r == Failure(MissingRole(FirstWithoutRole(sheet.value)))
  {
    if sheet.None? {
      return Success(map[]);
    }
    var rows := sheet.value;
    var result: DataMention := map[];
    var i := 0;
    while i < |rows|
      invariant 0 <= i <= |rows|
      invariant forall k :: 0 <= k < i ==> HasRole(rows[k])
      invariant AllHaveRole(rows[..i]) && result == MentionTable(rows[..i])
    {
      var entry := rows[i];
      if |entry| < 4 {
        assert FirstWithoutRole(rows) == i;
        return Failure(MissingRole(i));
      }
      ghost var before := result;
      var id, position, role := entry[0], entry[2], entry[3];
      var lowerRole := Lower(role);
      if lowerRole !in result {
        result := result[lowerRole := Approvers([], [])];
      }
      var lists := result[lowerRole];
      ghost var e := if lowerRole in before then before[lowerRole] else Approvers([], []);
      assert lists == e;
      assert e.employees + [] == e.employees && e.managers + [] == e.managers;
      if position == STAFF {
        result := result[lowerRole := lists.(employees := lists.employees + [id])];
        assert result == before[lowerRole := Approvers(e.employees + [id], e.managers + [])];
      } else if position == MANAGER {
        result := result[lowerRole := lists.(managers := lists.managers + [id])];
        assert result == before[lowerRole := Approvers(e.employees + [], e.managers + [id])];
      } else {
        assert result == before[lowerRole := Approvers(e.employees + [], e.managers + [])];
      }
      MentionTableSnoc(rows[..i], entry);
      assert rows[..i + 1] == rows[..i] + [entry];
      i := i + 1;
    }
    assert rows[..i] == rows;
    return Success(result);
  }

  // ---------------------------------------------------------------------
  // Approver resolution
  // ---------------------------------------------------------------------

  /** The department list a requester draws approvers from: staff are
      approved by the department's employees, anyone else by its managers. */
  function DepartmentApprovers(e: Approvers, position: string): seq<string> {
    if position == STAFF then e.employees else e.managers
  }

  /** `getMentionIds`. The board of directors is approved by its managers as
      listed; every other department by its own list followed by HR's
      employees, duplicates dropped. A missing entry is an error, never an
      empty list. */
  function MentionIds(data: DataMention, department: string, position: string): (r: Result<seq<string>>)
    ensures department == BOD
            ==> r == if BOD in data then Success(data[BOD].managers) else Failure(MissingEntry(BOD))
    ensures department != BOD && Lower(department) !in data
            ==> r == Failure(MissingEntry(Lower(department)))
    ensures department != BOD && Lower(department) in data && HR !in data
            ==> r == Failure(MissingEntry(HR))
    ensures department != BOD && Lower(department) in data && HR in data ==> r.Success?
    ensures department != BOD && r.Success?
            ==> && Lower(department) in data && HR in data
                && NoDup(r.value)
                && forall id :: id in r.value <==>
                     id in DepartmentApprovers(data[Lower(department)], position) || id in data[HR].employees
  {
    if department == BOD then
      if BOD in data then Success(data[BOD].managers) else Failure(MissingEntry(BOD))
    else
      var key := Lower(department);
      if key !in data then Failure(MissingEntry(key))
      else if HR !in data then Failure(MissingEntry(HR))
      else
        var e, hrs := data[key], data[HR].employees;
        Success(if position == STAFF then Dedup(e.employees + hrs) else Dedup(e.managers + hrs))
  }

  /** Outside the board, the resolved ids keep the order in which they first
      occur in the department list followed by the HR list. */
  lemma MentionIdsOrder(data: DataMention, department: string, position: string, i: nat, j: nat)
    requires department != BOD && MentionIds(data, department, position).Success?
    requires i < j < |MentionIds(data, department, position).value|
    ensures var ids := MentionIds(data, department, position).value;
            var all := DepartmentApprovers(data[Lower(department)], position) + data[HR].employees;
            IndexOf(all, ids[i]) < IndexOf(all, ids[j])
  {
    var all := DepartmentApprovers(data[Lower(department)], position) + data[HR].employees;
    DedupFirstOccurrence(all, i, j);
  }

  /** Outside the board, every department approver is listed before every
      approver who comes from HR alone. */
  lemma MentionIdsDepartmentFirst(data: DataMention, department: string, position: string, i: nat, j: nat)
    requires department != BOD && MentionIds(data, department, position).Success?
    requires i < j < |MentionIds(data, department, position).value|
    requires MentionIds(data, department, position).value[j] in DepartmentApprovers(data[Lower(department)], position)
    ensures MentionIds(data, department, position).value[i] in DepartmentApprovers(data[Lower(department)], position)
  {
    DedupPrefixFirst(DepartmentApprovers(data[Lower(department)], position), data[HR].employees, i, j);
  }

  /** The department is looked up case-insensitively: outside the literal
      key "bod", departments with the same lower-case form resolve alike. */
  lemma MentionIdsIgnoresCase(data: DataMention, d1: string, d2: string, position: string)
    requires d1 != BOD && d2 != BOD && Lower(d1) == Lower(d2)
    ensures MentionIds(data, d1, position) == MentionIds(data, d2, position)
  {
  }

  /** From the sheet to the approvers: outside the board, an id is resolved
      exactly when some row lists it in the requester's department with the
      matching position, or some row lists it as HR staff. */
  lemma MentionIdsFromSheet(rows: seq<Row>, department: string, position: string, id: string)
    requires AllHaveRole(rows) && department != BOD
    requires MentionIds(MentionTable(rows), department, position).Success?
    ensures var wanted := if position == STAFF then STAFF else MANAGER;
            id in MentionIds(MentionTable(rows), department, position).value
            <==> (exists i :: 0 <= i < |rows| && Lists(rows[i], Lower(department), wanted, id))
                 || (exists i :: 0 <= i < |rows| && Lists(rows[i], HR, STAFF, id))
  {
  }

  /** Resolution fails on a sheet exactly when no row carries the
      department, or no row carries HR. */
  lemma MentionIdsFailsOnSheet(rows: seq<Row>, department: string, position: string)
    requires AllHaveRole(rows) && department != BOD
    ensures MentionIds(MentionTable(rows), department, position).Failure?
            <==> (forall i :: 0 <= i < |rows| ==> RoleKey(rows[i]) != Lower(department))
                 || (forall i :: 0 <= i < |rows| ==> RoleKey(rows[i]) != HR)
  {
  }

  // ---------------------------------------------------------------------
  // Mentions text
  // ---------------------------------------------------------------------

  /** Total length of the strings in `parts`. */
  function SumLen(parts: seq<string>): nat {
    if parts == [] then 0 else |parts[0]| + SumLen(parts[1..])
  }

  /** `parts.join(sep)`. */
  function Join(parts: seq<string>, sep: string): (r: string)
    ensures parts == [] ==> r == []
    ensures parts != [] ==> |r| == SumLen(parts) + (|parts| - 1) * |sep|
  {
    if parts == [] then []
    else if |parts| == 1 then parts[0]
    else parts[0] + sep + Join(parts[1..], sep)
  }

  /** Joining one more part appends the separator and the part. */
  lemma {:induction false} JoinSnoc(parts: seq<string>, sep: string, p: string)
    requires parts != []
    ensures Join(parts + [p], sep) == Join(parts, sep) + sep + p
  {
    var parts' := parts + [p];
    assert parts'[1..] == parts[1..] + [p];
    if |parts| > 1 {
      JoinSnoc(parts[1..], sep, p);
    }
  }

  /** A Slack mention of a user id. */
  function Mention(id: string): string {
    "<@" + id + ">"
  }

  function MentionAll(ids: seq<string>): (ms: seq<string>)
    ensures |ms| == |ids|
    ensures forall i :: 0 <= i < |ids| ==> ms[i] == Mention(ids[i])
  {
    if ids == [] then [] else [Mention(ids[0])] + MentionAll(ids[1..])
  }

  lemma {:induction false} SumLenMentionAll(ids: seq<string>)
    ensures SumLen(MentionAll(ids)) == SumLen(ids) + 3 * |ids|
  {
    if ids != [] {
      SumLenMentionAll(ids[1..]);
      assert MentionAll(ids)[1..] == MentionAll(ids[1..]);
    }
  }

  /** `convertToMentions`: each id as a mention, separated by ", ". The text
      is empty exactly for no ids, and n ids take n - 1 separators. */
  function Mentions(ids: seq<string>): (r: string)
    ensures r == [] <==> ids == []
    ensures ids != [] ==> |r| == SumLen(ids) + 3 * |ids| + 2 * (|ids| - 1)
  {
    SumLenMentionAll(ids);
    Join(MentionAll(ids), ", ")
  }

  /** One more id appends ", " and its mention. */
  lemma MentionsSnoc(ids: seq<string>, id: string)
    requires ids != []
    ensures Mentions(ids + [id]) == Mentions(ids) + ", " + Mention(id)
  {
    assert MentionAll(ids + [id]) == MentionAll(ids) + [Mention(id)];
    JoinSnoc(MentionAll(ids), ", ", Mention(id));
  }

  // ---------------------------------------------------------------------
  // Date strings
  // ---------------------------------------------------------------------

  /** `s.split(sep)` for a one-character separator: there is always at
      least one field and no field holds the separator. */
  function Split(s: string, sep: char): (fields: seq<string>)
    ensures |fields| >= 1
    ensures forall i :: 0 <= i < |fields| ==> sep !in fields[i]
  {
    if s == [] then [[]]
    else
      var rest := Split(s[1..], sep);
      if s[0] == sep then [[]] + rest
      else [[s[0]] + rest[0]] + rest[1..]
  }

  /** Joining the fields with the separator gives the string back. */
  lemma {:induction false} JoinSplit(s: string, sep: char)
    ensures Join(Split(s, sep), [sep]) == s
  {
    if s != [] {
      JoinSplit(s[1..], sep);
      var rest := Split(s[1..], sep);
      if s[0] == sep {
        assert ([[]] + rest)[1..] == rest;
      } else {
        var fields := [[s[0]] + rest[0]] + rest[1..];
        assert fields[1..] == rest[1..];
        if |rest| > 1 {
          assert Join(rest, [sep]) == rest[0] + [sep] + Join(rest[1..], [sep]);
        }
      }
    }
  }

  /** Splitting a field that has no separator in front of `t` glues the field
      to the first field of `t`. */
  lemma {:induction false} SplitGlue(f: string, t: string, sep: char)
    requires sep !in f
    ensures Split(f + t, sep) == [f + Split(t, sep)[0]] + Split(t, sep)[1..]
  {
    var st := Split(t, sep);
    if f == [] {
      assert f + t == t && f + st[0] == st[0];
      assert [st[0]] + st[1..] == st;
    } else {
      assert (f + t)[0] == f[0] != sep;
      assert (f + t)[1..] == f[1..] + t;
      SplitGlue(f[1..], t, sep);
      assert [f[0]] + (f[1..] + st[0]) == f + st[0];
    }
  }

  /** Splitting joined fields that hold no separator gives the fields back. */
  lemma {:induction false} SplitJoin(fields: seq<string>, sep: char)
    requires |fields| >= 1
    requires forall i :: 0 <= i < |fields| ==> sep !in fields[i]
    ensures Split(Join(fields, [sep]), sep) == fields
  {
    if |fields| == 1 {
      SplitGlue(fields[0], [], sep);
      assert fields[0] + [] == fields[0];
      assert Split([], sep) == [[]];
    } else {
      var tail := Join(fields[1..], [sep]);
      SplitJoin(fields[1..], sep);
      var u := [sep] + tail;
      assert u[0] == sep && u[1..] == tail;
      assert Split(u, sep) == [[]] + fields[1..];
      SplitGlue(fields[0], u, sep);
      assert Join(fields, [sep]) == fields[0] + u;
      assert Split(u, sep)[0] == [] && Split(u, sep)[1..] == fields[1..];
      assert fields[0] + [] == fields[0];
      assert Split(fields[0] + u, sep) == [fields[0]] + fields[1..];
      assert fields == [fields[0]] + fields[1..];
    }
  }

  /** `s.reverse()`. */
  function Reverse<T>(s: seq<T>): (r: seq<T>)
    ensures |r| == |s|
    ensures forall i :: 0 <= i < |s| ==> r[i] == s[|s| - 1 - i]
  {
    if s == [] then [] else Reverse(s[1..]) + [s[0]]
  }

  lemma ReverseReverse<T>(s: seq<T>)
    ensures Reverse(Reverse(s)) == s
  {
  }

  /** The string step of `convertToDate`: `date.split("-").reverse().join("-")`. */
  function SwapDateFields(date: string): (r: string)
    ensures Split(r, '-') == Reverse(Split(date, '-'))
  {
    var fields := Split(date, '-');
    var rev := Reverse(fields);
    assert forall i :: 0 <= i < |rev| ==> '-' !in rev[i] by {
      forall i | 0 <= i < |rev| ensures '-' !in rev[i] {
        assert rev[i] == fields[|fields| - 1 - i];
      }
    }
    SplitJoin(rev, '-');
    Join(rev, "-")
  }

  /** Swapping twice gives back the original date string, so a "DD-MM-YYYY"
      value made from a "YYYY-MM-DD" one turns back into it. */
  lemma SwapDateFieldsInvolution(date: string)
    ensures SwapDateFields(SwapDateFields(date)) == date
  {
    ReverseReverse(Split(date, '-'));
    JoinSplit(date, '-');
  }

  /** The word between the two dates of a range. */
  const RANGE_WORD: string := " đến "

  /** The date shown on the request card: one date when both ends are the
      same, otherwise "from đến to". */
  function DateLabel(fromDate: string, toDate: string): (r: string)
    ensures r == fromDate <==> fromDate == toDate
    ensures fromDate <= r
    ensures fromDate != toDate
            ==> |r| == |fromDate| + |RANGE_WORD| + |toDate| && r[|r| - |toDate|..] == toDate
    ensures fromDate != toDate ==> r[|fromDate|..|fromDate| + |RANGE_WORD|] == RANGE_WORD
  {
    if fromDate == toDate then fromDate else fromDate + RANGE_WORD + toDate
  }

  // ---------------------------------------------------------------------
  // The request card posted for review
  // ---------------------------------------------------------------------

  /** The submitted form (`PayloadType`). */
  datatype Request = Request(
    userId: string, caseKey: string, department: string, reason: string, timeRange: string,
    fromDate: string, toDate: string, position: string, messageId: string, branch: string)

  /** The requester's profile as looked up by id. */
  datatype User = User(id: string, name: string, username: string, teamId: string)

  /** The JSON value carried by an Accept or Reject button: the request, the
      approvers still pending, those who have accepted, the requester and the
      time the card was sent. */
  datatype ButtonValue = ButtonValue(
    request: Request, mentionIds: seq<string>, mentionAcceptedIds: seq<string>,
    user: User, sentAt: string)

  /** What `sendMessageRequest` posts: the mentions line, the date line and
      the two buttons. */
  datatype RequestCard = RequestCard(mentions: string, date: string, accept: ButtonValue, reject: ButtonValue)

  /** The card for a new request. The department is lower-cased before
      resolution; both buttons carry the same value, with every resolved
      approver pending and nobody accepted yet. */
  function NewRequestCard(request: Request, data: DataMention, user: User, sentAt: string): (r: Result<RequestCard>)
    ensures r.Failure? <==> MentionIds(data, Lower(request.department), request.position).Failure?
    ensures r.Success? ==>
              var ids := MentionIds(data, Lower(request.department), request.position).value;
              && r.value.accept == r.value.reject
              && r.value.accept == ButtonValue(request, ids, [], user, sentAt)
              && r.value.mentions == Mentions(ids)
              && r.value.date == DateLabel(request.fromDate, request.toDate)
  {
    var resolved := MentionIds(data, Lower(request.department), request.position);
    if resolved.Failure? then Failure(resolved.error)
    else
      var value := ButtonValue(request, resolved.value, [], user, sentAt);
      Success(RequestCard(Mentions(resolved.value), DateLabel(request.fromDate, request.toDate), value, value))
  }

  /** On a new card, pending and accepted approvers are disjoint, and outside
      the board no approver is pending twice. */
  lemma NewRequestCardApprovers(request: Request, data: DataMention, user: User, sentAt: string)
    requires NewRequestCard(request, data, user, sentAt).Success?
    ensures var v := NewRequestCard(request, data, user, sentAt).value.accept;
            && (forall id :: id in v.mentionIds ==> id !in v.mentionAcceptedIds)
            && (Lower(request.department) != BOD ==> NoDup(v.mentionIds))
  {
  }

  /** Because the department is lower-cased first, any spelling of "bod" is
      approved by the board's managers whatever the requester's position. */
  lemma NewRequestCardBoard(request: Request, data: DataMention, user: User, sentAt: string)
    requires Lower(request.department) == BOD && BOD in data
    ensures NewRequestCard(request, data, user, sentAt).Success?
    ensures NewRequestCard(request, data, user, sentAt).value.accept.mentionIds == data[BOD].managers
  {
  }
}
