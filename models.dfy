/**
  * The rows of the backend's tables and the pieces every handler shares: the
  * password hash, HTTP errors, and the `.first()` lookup of a query.
  */
module Models {
  import opened Wrappers
  import opened Text

  /** A bcrypt hash, kept abstract: it records the password it was made from
      and the random salt drawn when it was made. */
  datatype PasswordHash = Bcrypt(password: string, salt: nat)

  /** `get_password_hash(password)`: hashing with a freshly drawn salt. */
  function HashPassword(password: string, salt: nat): (h: PasswordHash)
    ensures VerifyPassword(password, h)
  {
    Bcrypt(password, salt)
  }

  /** `verify_password(plain, hashed)`: whether `plain` is the password the hash was made from. */
  predicate VerifyPassword(plain: string, hashed: PasswordHash) {
    hashed.password == plain
  }

  /** A hash accepts exactly the password it was made from, whatever the salt. */
  lemma {:induction false} VerifyOnlyOwnPassword(plain: string, other: string, salt: nat)
    ensures VerifyPassword(other, HashPassword(plain, salt)) <==> other == plain
  {
  }

  /** Role names; any other string is stored as given by an admin. */
  const RoleUser: string := "user"
  const RoleAdmin: string := "admin"

  /** A row of `users`. */
  datatype User = User(id: int, username: string, email: string, hashedPassword: PasswordHash,
                       role: string, isActive: bool)

  /** A row of `documents`. */
  datatype Document = Document(id: int, fileName: string, fileType: string, fileSize: int,
                               filePath: string, uploadedBy: string, status: string, userId: int)

  /** A row of `messages`, kept inside its chat. */
  datatype Message = Message(content: string, sender: string)

  /** A row of `chats` with its messages in insertion order. */
  datatype Chat = Chat(id: int, title: string, userId: int, messages: seq<Message>)

  /** An `HTTPException`: status code and detail text. */
  datatype HttpError = HttpError(status: int, detail: string)

  const BadRequest: int := 400
  const Unauthorized: int := 401
  const Forbidden: int := 403
  const NotFound: int := 404
  /** An exception that is not an `HTTPException` reaches the client as a 500. */
  const InternalServerError: int := 500

  /** `query.filter(p).first()` over a table in row order: the position of the
      first row satisfying `p`, if any. */
  function FirstWhere<T>(rows: seq<T>, p: T -> bool): (r: Option<nat>)
    ensures r.Some? ==> r.value < |rows| && p(rows[r.value])
                        && forall j :: 0 <= j < r.value ==> !p(rows[j])
    ensures r.None? <==> forall j :: 0 <= j < |rows| ==> !p(rows[j])
    decreases |rows|
  {
    if rows == [] then None
    else if p(rows[0]) then Some(0)
    else
      var r := FirstWhere(rows[1..], p);
      assert forall j :: 1 <= j < |rows| ==> rows[j] == rows[1..][j - 1];
      if r.Some? then Some(r.value + 1) else None
  }

  /** The id SQLite gives a new row of a table without `AUTOINCREMENT`: one more
      than the largest id present, or 1 for an empty table. */
  function NextId(ids: seq<int>): (n: int)
    ensures n >= 1
    ensures ids == [] ==> n == 1
    ensures forall j :: 0 <= j < |ids| ==> ids[j] < n
    ensures ids != [] && (forall j :: 0 <= j < |ids| ==> ids[j] >= 1) ==> n - 1 in ids
    decreases |ids|
  {
    if ids == [] then 1
    else
      var init := ids[..|ids| - 1];
      var n := NextId(init);
      assert forall j :: 0 <= j < |init| ==> init[j] == ids[j];
      Max(ids[|ids| - 1] + 1, n)
  }
}
