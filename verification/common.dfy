/**
 Shared vocabulary of the library-and-café backend model: optional values,
 the HTTP-level outcome of a request, the notices a request hands to the
 notification sink, roles, time units and small sequence helpers.

 Every table the modelled controllers write is a sequence whose position
 `i` holds the row with identity `i + 1`: rows are only ever appended
 (nothing in those controllers deletes a row), and the model numbers them
 consecutively. The menu, only read, is a map from item id to price, and a
 reservation's seat rows are held inside the reservation. A real identity column may skip values after an insert that
 fails or is rolled back; ids here are positions, not those values.
 */
module Common {

  datatype Option<+T> = None | Some(value: T)

  /** What a controller action answers; `E` is the action's own error reason. */
  datatype Response<+T, +E> =
    | Ok(value: T)
    | BadRequest(error: E)
    | NotFound
    | Forbid
    | Unauthorized
    // a write the database refuses (a unique index): the action throws, answers 500, saves nothing
    | Failed

  /** A request to the notification sink: recipient, title, type, related row. */
  datatype Notice = Notice(userId: int, title: string, kind: string, relatedId: int)

  /** One step of a controller: its answer, the new state, the notices it emits. */
  datatype Step<S, +T, +E> = Step(response: Response<T, E>, state: S, notices: seq<Notice>)

  /** A rejected step: the given answer, the state untouched and nothing emitted. */
  function Reject<S, T, E>(response: Response<T, E>, s: S): (r: Step<S, T, E>)
    requires !response.Ok?
    ensures !r.response.Ok? && r.state == s && r.notices == []
  {
    Step(response, s, [])
  }

  // Roles are the raw claim strings the controllers compare against; a
  // missing claim reads as the empty string.
  const ADMIN := "admin"
  const CAFE_STAFF := "cafe staff"
  const LIBRARIAN := "librarian"

  /** The caller id a missing or unparsable `userId` claim yields. */
  const ANONYMOUS := 0

  predicate IsStaffOrAdmin(role: string) {
    role == CAFE_STAFF || role == ADMIN
  }

  predicate IsLibrarianOrAdmin(role: string) {
    role == LIBRARIAN || role == ADMIN
  }

  // Time is an integer number of seconds.
  const MINUTE := 60
  const HOUR := 60 * MINUTE
  const DAY := 24 * HOUR

  /** The row with identity `id` exists in a table of `n` rows. */
  predicate IsId(n: nat, id: int) {
    1 <= id <= n
  }

  /** The identities, in ascending order, of the rows of `s` satisfying `p`. */
  function IdsWhere<T>(s: seq<T>, p: T -> bool): (ids: seq<nat>)
    ensures forall k :: 0 <= k < |ids| ==> IsId(|s|, ids[k]) && p(s[ids[k] - 1])
    ensures forall i :: 0 <= i < |s| && p(s[i]) ==> i + 1 in ids
    ensures forall k, l :: 0 <= k < l < |ids| ==> ids[k] < ids[l]
  {
    if |s| == 0 then []
    else
      var front := IdsWhere(s[..|s| - 1], p);
      if p(s[|s| - 1]) then front + [|s|] else front
  }

  /** The number of elements of `s` satisfying `p`. */
  function CountWhere<T>(s: seq<T>, p: T -> bool): (n: nat)
    ensures n <= |s|
  {
    if |s| == 0 then 0
    else CountWhere(s[..|s| - 1], p) + (if p(s[|s| - 1]) then 1 else 0)
  }

  lemma {:induction false} CountWhereAppend<T>(s: seq<T>, x: T, p: T -> bool)
    ensures CountWhere(s + [x], p) == CountWhere(s, p) + (if p(x) then 1 else 0)
  {
    assert (s + [x])[..|s + [x]| - 1] == s;
  }

  /** Extending a prefix by one element adds that element's share to the count. */
  lemma {:induction false} CountWherePrefix<T>(s: seq<T>, i: nat, p: T -> bool)
    requires i < |s|
    ensures CountWhere(s[..i + 1], p) == CountWhere(s[..i], p) + (if p(s[i]) then 1 else 0)
  {
    assert s[..i + 1][..i] == s[..i];
  }

  /** No element satisfies `p` exactly when the count is zero. */
  lemma {:induction false} CountWhereZero<T>(s: seq<T>, p: T -> bool)
    ensures CountWhere(s, p) == 0 <==> forall i :: 0 <= i < |s| ==> !p(s[i])
  {
    if |s| > 0 {
      var front := s[..|s| - 1];
      CountWhereZero(front, p);
      assert forall i :: 0 <= i < |front| ==> front[i] == s[i];
    }
  }

  /**
   Replacing one element changes the count by the difference the element
   itself makes, and by nothing else.
   */
  lemma {:induction false} CountWhereUpdate<T>(s: seq<T>, i: nat, x: T, p: T -> bool)
    requires i < |s|
    ensures CountWhere(s[i := x], p) + (if p(s[i]) then 1 else 0)
         == CountWhere(s, p) + (if p(x) then 1 else 0)
  {
    var t := s[i := x];
    if i == |s| - 1 {
      assert t[..|t| - 1] == s[..|s| - 1];
    } else {
      CountWhereUpdate(s[..|s| - 1], i, x, p);
      assert t[..|t| - 1] == s[..|s| - 1][i := x];
    }
  }
}
