/**
  * The request handlers of `main.py` over an in-memory store of the four
  * tables. Handlers that write (`signup`, `send_message`, `upload_document`,
  * `delete_document`, `update_user`, `change_user_password`) are methods of
  * `Store`; those that only read (`login`, `download_document`) and the mock
  * reply generator are functions of the table contents.
  *
  * The authenticated caller is an input: it is what `GetCurrentUser` (or,
  * for the admin endpoints, `GetCurrentAdminUser`) returned, and a handler
  * body runs only when that dependency succeeded.
  */
module Api {
  import opened Wrappers
  import opened Text
  import opened Models
  import opened Auth
  import Retrieval

  // ---------------------------------------------------------------- constants

  /** The content types `upload_document` accepts. */
  const PdfType: string := "application/pdf"
  const DocxType: string := "application/vnd.openxmlformats-officedocument.wordprocessingml.document"
  const PlainTextType: string := "text/plain"

  /** 50 MiB: the largest accepted upload, in bytes. */
  const MaxUploadSize: int := 50 * 1024 * 1024

  /** Characters of the first message kept in a new chat's title. */
  const TitleLength: nat := 50

  /** Shortest password `change_user_password` accepts. */
  const MinPasswordLength: nat := 6

  /** Status of a freshly uploaded document. */
  const StatusCompleted: string := "completed"

  const SenderUser: string := "user"
  const SenderAssistant: string := "assistant"

  /** The four openings `generate_ai_response` picks from at random. */
  const Openings: seq<string> := [
    "Based on ONGC's operational guidelines, I can help you with that query.",
    "According to the safety protocols in your uploaded documents, here's what I found:",
    "From the technical specifications available, I can provide the following information:",
    "Based on the regulatory compliance documents, here are the key points:"
  ]

  /** The fixed source the mock reply cites for safety questions. */
  const SafetyManual: Retrieval.Source := Retrieval.Source(
    "ONGC Safety Manual 2024",
    "Safety protocols and emergency procedures for offshore operations...",
    "safety_manual_2024.pdf",
    "/docs/safety_manual_2024.pdf")

  // ---------------------------------------------------------------- responses

  /** The token and user returned by `signup` and `login`. */
  datatype Session = Session(token: Token, user: User)

  /** The reply of `send_message`. */
  datatype ChatReply = ChatReply(chatId: int, message: string, sources: seq<Retrieval.Source>)

  /** The result of `generate_ai_response`. */
  datatype AiResponse = AiResponse(message: string, sources: seq<Retrieval.Source>)

  // ---------------------------------------------------------------- mock reply

  /** The part of every mock reply that quotes the user's message. */
  function QuerySuffix(message: string): string {
    " Your query about '" + message + "' requires detailed analysis of the relevant documentation."
  }

  /** `generate_ai_response(message)`, with the random choice of opening given
      as the index `pick`. */
  function GenerateAiResponse(message: string, pick: nat): (r: AiResponse)
    requires pick < |Openings|
    ensures |r.message| == |Openings[pick]| + |QuerySuffix(message)|
    ensures r.message[..|Openings[pick]|] == Openings[pick]
    ensures r.message[|r.message| - |QuerySuffix(message)|..] == QuerySuffix(message)
    ensures r.sources == [] || r.sources == [SafetyManual]
    ensures r.sources != [] <==> Contains(Lower(message), "safety")
  {
    var reply := Openings[pick] + QuerySuffix(message);
    assert reply[..|Openings[pick]|] == Openings[pick];
    assert reply[|reply| - |QuerySuffix(message)|..] == QuerySuffix(message);
    AiResponse(reply, if Contains(Lower(message), "safety") then [SafetyManual] else [])
  }

  /** The two messages `send_message` stores: the user's, then the reply. */
  function Exchange(message: string, pick: nat): (ms: seq<Message>)
    requires pick < |Openings|
    ensures |ms| == 2 && ms[0] == Message(message, SenderUser)
    ensures ms[1] == Message(GenerateAiResponse(message, pick).message, SenderAssistant)
  {
    [Message(message, SenderUser), Message(GenerateAiResponse(message, pick).message, SenderAssistant)]
  }

  // ---------------------------------------------------------------- lookups

  /** The ids of a table's rows, in row order. */
  function Ids<T>(rows: seq<T>, id: T -> int): (ids: seq<int>)
    ensures |ids| == |rows| && forall i :: 0 <= i < |rows| ==> ids[i] == id(rows[i])
  {
    seq(|rows|, i requires 0 <= i < |rows| => id(rows[i]))
  }

  function UserIds(users: seq<User>): seq<int> { Ids(users, (u: User) => u.id) }

  function DocumentIds(documents: seq<Document>): seq<int> { Ids(documents, (d: Document) => d.id) }

  function ChatIds(chats: seq<Chat>): seq<int> { Ids(chats, (c: Chat) => c.id) }

  /** `db.query(User).filter(User.id == userId).first()`. */
  function FindUser(users: seq<User>, userId: int): Option<nat> {
    FirstWhere(users, (u: User) => u.id == userId)
  }

  /** The signup duplicate check: a user with the same email or the same username. */
  predicate SignupTaken(users: seq<User>, username: string, email: string) {
    exists j :: 0 <= j < |users| && (users[j].email == email || users[j].username == username)
  }

  /** The `update_user` duplicate check: a user other than `userId` with the
      new username or the new email. */
  predicate UpdateTaken(users: seq<User>, userId: int, username: string, email: string) {
    exists j :: 0 <= j < |users| && users[j].id != userId
                && (users[j].username == username || users[j].email == email)
  }

  /** `db.query(Chat).filter(Chat.id == chatId, Chat.user_id == userId).first()`. */
  function OwnedChat(chats: seq<Chat>, chatId: int, userId: int): Option<nat> {
    FirstWhere(chats, (c: Chat) => c.id == chatId && c.userId == userId)
  }

  /** The document `download_document` looks up: by id alone for an admin,
      by id and owner for anyone else. */
  function DownloadTarget(documents: seq<Document>, caller: User, docId: int): Option<nat> {
    if caller.role == RoleAdmin then FirstWhere(documents, (d: Document) => d.id == docId)
    else FirstWhere(documents, (d: Document) => d.id == docId && d.userId == caller.id)
  }

  /** The document `delete_document` looks up: by id and owner, for every role. */
  function DeleteTarget(documents: seq<Document>, caller: User, docId: int): Option<nat> {
    FirstWhere(documents, (d: Document) => d.id == docId && d.userId == caller.id)
  }

  // ---------------------------------------------------------------- validation

  /** The checks of `upload_document`, in order: the content type must be one
      of the three allowed types, then the size must not exceed 50 MiB. */
  function ValidateUpload(contentType: string, size: int): (r: Option<HttpError>)
    ensures r.None? <==> contentType in [PdfType, DocxType, PlainTextType] && size <= MaxUploadSize
    ensures contentType !in [PdfType, DocxType, PlainTextType] ==> r == Some(HttpError(BadRequest, "File type not supported"))
    ensures r.Some? ==> r.value.status == BadRequest
  {
    if contentType !in [PdfType, DocxType, PlainTextType] then Some(HttpError(BadRequest, "File type not supported"))
    else if size > MaxUploadSize then Some(HttpError(BadRequest, "File size too large"))
    else None
  }

  /** The password rule of `change_user_password`: present, non-empty and at
      least six characters. */
  predicate PasswordAcceptable(password: Option<string>) {
    password.Some? && password.value != [] && |password.value| >= MinPasswordLength
  }

  // ---------------------------------------------------------------- read-only handlers

  /** The login lookup matches a user by username or by email. */
  predicate LoginMatches(u: User, name: string) {
    u.username == name || u.email == name
  }

  /** `db.query(User).filter((User.username == name) | (User.email == name)).first()`. */
  function LoginLookup(users: seq<User>, name: string): Option<nat> {
    FirstWhere(users, (u: User) => LoginMatches(u, name))
  }

  /** The session `login` returns for `user`: a token whose subject is the username. */
  function SessionFor(user: User, now: int, key: string): Session {
    Session(CreateAccessToken(map["sub" := Str(user.username)], None, now, key), user)
  }

  const InvalidCredentials := HttpError(Unauthorized, "Invalid credentials")

  /** `login`: the user the lookup finds; 401 when there is none or the
      password does not match that user's hash. */
  function Login(users: seq<User>, name: string, password: string, now: int, key: string): (r: Result<Session, HttpError>)
    ensures LoginLookup(users, name).None? ==> r == Err(InvalidCredentials)
    ensures forall i :: LoginLookup(users, name) == Some(i) ==>
              && LoginMatches(users[i], name)
              && (VerifyPassword(password, users[i].hashedPassword) ==> r == Ok(SessionFor(users[i], now, key)))
              && (!VerifyPassword(password, users[i].hashedPassword) ==> r == Err(InvalidCredentials))
    ensures r.Ok? ==> r.value.user in users && LoginMatches(r.value.user, name)
                      && VerifyPassword(password, r.value.user.hashedPassword)
                      && DecodeAccessToken(r.value.token, key, now) == Ok(r.value.user.username)
    ensures r.Err? ==> r.error.status == Unauthorized
  {
    match LoginLookup(users, name)
    case None => Err(InvalidCredentials)
    case Some(i) =>
      if !VerifyPassword(password, users[i].hashedPassword) then Err(InvalidCredentials)
      else
        TokenRoundTrip(users[i].username, None, now, key, key, now);
        Ok(SessionFor(users[i], now, key))
  }

  /** `download_document`: 404 when the lookup finds nothing or the stored file
      is missing; otherwise the document. */
  function Download(documents: seq<Document>, files: set<string>, caller: User, docId: int): (r: Result<Document, HttpError>)
    ensures r.Ok? ==> r.value in documents && r.value.id == docId && r.value.filePath in files
                      && (caller.role != RoleAdmin ==> r.value.userId == caller.id)
    ensures r.Err? ==> r.error.status == NotFound
  {
    match DownloadTarget(documents, caller, docId)
    case None => Err(HttpError(NotFound, "Document not found"))
    case Some(i) =>
      if documents[i].filePath !in files then Err(HttpError(NotFound, "File not found on server"))
      else Ok(documents[i])
  }

  // ---------------------------------------------------------------- properties

  /** A user who has just signed up can log in with the username, or with the
      email when no older user has it as username, using the password given at
      signup, and gets a token for their username; any other password is
      refused with 401. No older user may have the new username as email:
      otherwise two rows match and which one the lookup returns is up to the
      database. */
  lemma {:induction false} SignupThenLogin(users: seq<User>, username: string, email: string, password: string, other: string,
                        salt: nat, now: int, key: string)
    requires !SignupTaken(users, username, email)
    requires forall j :: 0 <= j < |users| ==> users[j].email != username
    ensures var u := User(NextId(UserIds(users)), username, email, HashPassword(password, salt), RoleUser, true);
      && Login(users + [u], username, password, now, key) == Ok(SessionFor(u, now, key))
      && ((forall j :: 0 <= j < |users| ==> users[j].username != email) ==>
            && Login(users + [u], email, password, now, key) == Ok(SessionFor(u, now, key))
            && (other != password ==> Login(users + [u], email, other, now, key) == Err(InvalidCredentials)))
      && (other != password ==> Login(users + [u], username, other, now, key) == Err(InvalidCredentials))
  {
    var u := User(NextId(UserIds(users)), username, email, HashPassword(password, salt), RoleUser, true);
    assert forall j :: 0 <= j < |users| ==> users[j].username != username by {
      forall j | 0 <= j < |users| ensures users[j].username != username {
        assert !(users[j].email == email || users[j].username == username);
      }
    }
    FirstMatchIsNew(users, u, username);
    if forall j :: 0 <= j < |users| ==> users[j].username != email {
      assert forall j :: 0 <= j < |users| ==> users[j].email != email by {
        forall j | 0 <= j < |users| ensures users[j].email != email {
          assert !(users[j].email == email || users[j].username == username);
        }
      }
      FirstMatchIsNew(users, u, email);
    }
  }

  /** When no earlier user has `name` as username or email, the login lookup
      lands on a user appended after them who has. */
  lemma {:induction false} FirstMatchIsNew(users: seq<User>, u: User, name: string)
    requires forall j :: 0 <= j < |users| ==> users[j].username != name && users[j].email != name
    requires LoginMatches(u, name)
    ensures LoginLookup(users + [u], name) == Some(|users|)
  {
    var us := users + [u];
    var p := (v: User) => LoginMatches(v, name);
    assert p(us[|users|]);
    forall j | 0 <= j < |users|
      ensures !p(us[j])
    {
      assert us[j] == users[j];
    }
  }

  /** Login consults one user only: when some user matches the name, there is
      one matching user whose hash alone decides every password, and a
      success is that user's session. Which matching user it is does not
      matter here, since the lookup has no ordering. */
  lemma {:induction false} LoginConsultsOneUser(users: seq<User>, name: string, now: int, key: string)
    ensures (forall j :: 0 <= j < |users| ==> !LoginMatches(users[j], name)) ==>
              forall p :: Login(users, name, p, now, key) == Err(InvalidCredentials)
    ensures (exists j :: 0 <= j < |users| && LoginMatches(users[j], name)) ==>
              exists i :: 0 <= i < |users| && LoginMatches(users[i], name)
                && forall p :: Login(users, name, p, now, key)
                                == if VerifyPassword(p, users[i].hashedPassword) then Ok(SessionFor(users[i], now, key))
                                   else Err(InvalidCredentials)
  {
    match LoginLookup(users, name)
    case None =>
    case Some(i) =>
      assert forall p :: Login(users, name, p, now, key)
                          == if VerifyPassword(p, users[i].hashedPassword) then Ok(SessionFor(users[i], now, key))
                             else Err(InvalidCredentials);
  }

  /** Ids are unique in the documents table. */
  predicate UniqueDocumentIds(documents: seq<Document>) {
    forall i, j :: 0 <= i < j < |documents| ==> documents[i].id != documents[j].id
  }

  /** With unique document ids, a download by id succeeds exactly when the
      stored file exists and the caller is an admin or the owner, and delete
      finds the document exactly when the caller is the owner, admin or not. */
  lemma {:induction false} DownloadAndDeleteAccess(documents: seq<Document>, files: set<string>, caller: User, i: nat)
    requires UniqueDocumentIds(documents) && i < |documents|
    ensures var d := documents[i];
      && (Download(documents, files, caller, d.id) == Ok(d) <==>
            d.filePath in files && (caller.role == RoleAdmin || d.userId == caller.id))
      && (Download(documents, files, caller, d.id).Err? ==> Download(documents, files, caller, d.id).error.status == NotFound)
      && (DeleteTarget(documents, caller, d.id) == Some(i) <==> d.userId == caller.id)
      && (DeleteTarget(documents, caller, d.id).None? <==> d.userId != caller.id)
  {
    var d := documents[i];
    var byId := FirstWhere(documents, (e: Document) => e.id == d.id);
    var owned := FirstWhere(documents, (e: Document) => e.id == d.id && e.userId == caller.id);
    assert byId == Some(i);
    if d.userId == caller.id {
      assert owned == Some(i);
    } else {
      assert owned.None?;
    }
  }

  /** An admin may download another user's document but may not delete it. */
  lemma {:induction false} AdminDownloadsButCannotDelete(documents: seq<Document>, files: set<string>, admin: User, i: nat)
    requires UniqueDocumentIds(documents) && i < |documents|
    requires admin.role == RoleAdmin && documents[i].userId != admin.id && documents[i].filePath in files
    ensures Download(documents, files, admin, documents[i].id) == Ok(documents[i])
    ensures DeleteTarget(documents, admin, documents[i].id).None?
  {
    DownloadAndDeleteAccess(documents, files, admin, i);
  }

  /** In a valid table an update that keeps a user's own username and email is
      not a conflict, while taking over another user's username or email is. */
  lemma {:induction false} UpdateConflicts(users: seq<User>, i: nat, k: nat, role: string)
    requires UsersValid(users) && i < |users| && k < |users| && k != i
    ensures !UpdateTaken(users, users[i].id, users[i].username, users[i].email)
    ensures UpdateTaken(users, users[i].id, users[k].username, users[i].email)
    ensures UpdateTaken(users, users[i].id, users[i].username, users[k].email)
  {
    assert users[k].id != users[i].id by {
      if i < k { } else { }
    }
  }

  /** Exactly 50 MiB of an allowed type is accepted; one byte more is not. */
  lemma {:induction false} UploadSizeBoundary(contentType: string)
    requires contentType in [PdfType, DocxType, PlainTextType]
    ensures ValidateUpload(contentType, MaxUploadSize) == None
    ensures ValidateUpload(contentType, MaxUploadSize + 1) == Some(HttpError(BadRequest, "File size too large"))
  {
  }

  // ---------------------------------------------------------------- store

  /** Some user has the id `userId`. */
  predicate UserExists(users: seq<User>, userId: int) {
    exists j :: 0 <= j < |users| && users[j].id == userId
  }

  /** User ids are positive and unique, and so are usernames and emails. */
  predicate UsersValid(users: seq<User>) {
    && (forall i, j :: 0 <= i < j < |users| ==> users[i].id != users[j].id)
    && (forall i :: 0 <= i < |users| ==> users[i].id >= 1)
    && (forall i, j :: 0 <= i < j < |users| ==> users[i].username != users[j].username)
    && (forall i, j :: 0 <= i < j < |users| ==> users[i].email != users[j].email)
  }

  /** Document ids are positive and unique, and every document has an owner. */
  predicate DocumentsValid(documents: seq<Document>, users: seq<User>) {
    && UniqueDocumentIds(documents)
    && (forall i :: 0 <= i < |documents| ==> documents[i].id >= 1)
    && (forall i :: 0 <= i < |documents| ==> UserExists(users, documents[i].userId))
  }

  /** Chat ids are positive and unique, and every chat has an owner. */
  predicate ChatsValid(chats: seq<Chat>, users: seq<User>) {
    && (forall i, j :: 0 <= i < j < |chats| ==> chats[i].id != chats[j].id)
    && (forall i :: 0 <= i < |chats| ==> chats[i].id >= 1)
    && (forall i :: 0 <= i < |chats| ==> UserExists(users, chats[i].userId))
  }

  /** The invariant of the store's tables. */
  predicate TablesValid(users: seq<User>, documents: seq<Document>, chats: seq<Chat>) {
    UsersValid(users) && DocumentsValid(documents, users) && ChatsValid(chats, users)
  }

  /** Documents and chats keep their owners when every user id survives. */
  lemma {:induction false} OwnersKept(users: seq<User>, us: seq<User>, documents: seq<Document>, chats: seq<Chat>)
    requires forall j :: 0 <= j < |users| ==> UserExists(us, users[j].id)
    requires DocumentsValid(documents, users) && ChatsValid(chats, users)
    ensures DocumentsValid(documents, us) && ChatsValid(chats, us)
  {
    forall id | UserExists(users, id) ensures UserExists(us, id) {
      var j :| 0 <= j < |users| && users[j].id == id;
    }
  }

  /** Signing up keeps the tables valid. */
  lemma {:induction false} SignupKeepsValid(users: seq<User>, documents: seq<Document>, chats: seq<Chat>, u: User)
    requires TablesValid(users, documents, chats)
    requires u.id == NextId(UserIds(users)) && !SignupTaken(users, u.username, u.email)
    ensures TablesValid(users + [u], documents, chats)
  {
    var us := users + [u];
    assert UsersValid(us) by {
      assert u.id >= 1;
      forall i, j | 0 <= i < j < |us|
        ensures us[i].id != us[j].id && us[i].username != us[j].username && us[i].email != us[j].email
      {
        assert us[i] == users[i];
        if j == |users| {
          assert UserIds(users)[i] == users[i].id;
        } else {
          assert us[j] == users[j];
        }
      }
      forall i | 0 <= i < |us|
        ensures us[i].id >= 1
      {
        if i < |users| {
          assert us[i] == users[i];
        }
      }
    }
    forall j | 0 <= j < |users| ensures UserExists(us, users[j].id) {
      assert us[j] == users[j];
    }
    OwnersKept(users, us, documents, chats);
  }

  /** Replacing a user's username, email, role or hash keeps the tables valid
      when no other user holds the new username or email. */
  lemma {:induction false} ReplaceUserKeepsValid(users: seq<User>, documents: seq<Document>, chats: seq<Chat>, i: nat, u: User)
    requires TablesValid(users, documents, chats) && i < |users| && u.id == users[i].id
    requires forall j :: 0 <= j < |users| && j != i ==> users[j].username != u.username && users[j].email != u.email
    ensures TablesValid(users[i := u], documents, chats)
  {
    var us := users[i := u];
    forall j | 0 <= j < |users| ensures UserExists(us, users[j].id) {
      assert us[j].id == users[j].id;
    }
    OwnersKept(users, us, documents, chats);
  }

  /** Adding a chat with a fresh id for an existing user keeps the tables valid. */
  lemma {:induction false} AddChatKeepsValid(users: seq<User>, documents: seq<Document>, chats: seq<Chat>, c: Chat)
    requires TablesValid(users, documents, chats)
    requires c.id == NextId(ChatIds(chats)) && UserExists(users, c.userId)
    ensures TablesValid(users, documents, chats + [c])
  {
    var cs := chats + [c];
    assert c.id >= 1;
    forall i, j | 0 <= i < j < |cs|
      ensures cs[i].id != cs[j].id
    {
      assert cs[i] == chats[i] && ChatIds(chats)[i] == chats[i].id;
    }
    forall i | 0 <= i < |cs|
      ensures cs[i].id >= 1 && UserExists(users, cs[i].userId)
    {
      if i < |chats| {
        assert cs[i] == chats[i];
      }
    }
    assert ChatsValid(cs, users);
  }

  /** Changing a chat's messages keeps the tables valid. */
  lemma {:induction false} SetMessagesKeepsValid(users: seq<User>, documents: seq<Document>, chats: seq<Chat>, i: nat, ms: seq<Message>)
    requires TablesValid(users, documents, chats) && i < |chats|
    ensures TablesValid(users, documents, chats[i := chats[i].(messages := ms)])
  {
  }

  /** Adding a document with a fresh id for an existing user keeps the tables valid. */
  lemma {:induction false} AddDocumentKeepsValid(users: seq<User>, documents: seq<Document>, chats: seq<Chat>, d: Document)
    requires TablesValid(users, documents, chats)
    requires d.id == NextId(DocumentIds(documents)) && UserExists(users, d.userId)
    ensures TablesValid(users, documents + [d], chats)
  {
    var ds := documents + [d];
    assert d.id >= 1;
    forall i, j | 0 <= i < j < |ds|
      ensures ds[i].id != ds[j].id
    {
      assert ds[i] == documents[i] && DocumentIds(documents)[i] == documents[i].id;
    }
    forall i | 0 <= i < |ds|
      ensures ds[i].id >= 1 && UserExists(users, ds[i].userId)
    {
      if i < |documents| {
        assert ds[i] == documents[i];
      }
    }
    assert DocumentsValid(ds, users);
  }

  /** Removing a document keeps the tables valid. */
  lemma {:induction false} RemoveDocumentKeepsValid(users: seq<User>, documents: seq<Document>, chats: seq<Chat>, i: nat)
    requires TablesValid(users, documents, chats) && i < |documents|
    ensures TablesValid(users, documents[..i] + documents[i + 1..], chats)
  {
    var ds := documents[..i] + documents[i + 1..];
    assert forall k :: 0 <= k < |ds| ==> ds[k] == documents[if k < i then k else k + 1];
  }

  /** The tables of the database, updated in place by the handlers, and the
      set of paths present in the upload directory. */
  class Store {
    var users: seq<User>
    var documents: seq<Document>
    var chats: seq<Chat>
    var files: set<string>

    /** Ids are positive and unique per table, usernames and emails are unique,
        and every document and chat belongs to an existing user. */
    ghost predicate Valid()
      reads this
    {
      TablesValid(users, documents, chats)
    }

    /** An empty database and upload directory. */
    constructor()
      ensures Valid()
      ensures users == [] && documents == [] && chats == [] && files == {}
    {
      users, documents, chats, files := [], [], [], {};
    }

    /** `signup`: 400 when a user already has the email or the username;
        otherwise a new active user with role `user` and a token for it. */
    method Signup(username: string, email: string, password: string, salt: nat, now: int, key: string)
      returns (r: Result<Session, HttpError>)
      requires Valid()
      modifies this
      ensures Valid()
      ensures documents == old(documents) && chats == old(chats) && files == old(files)
      ensures SignupTaken(old(users), username, email) ==>
        r == Err(HttpError(BadRequest, "User already exists with this email or username")) && users == old(users)
      ensures !SignupTaken(old(users), username, email) ==>
        var u := User(NextId(UserIds(old(users))), username, email, HashPassword(password, salt), RoleUser, true);
        && users == old(users) + [u]
        && r == Ok(SessionFor(u, now, key))
    {
      var existing := FirstWhere(users, (u: User) => u.email == email || u.username == username);
      if existing.Some? {
        return Err(HttpError(BadRequest, "User already exists with this email or username"));
      }
      var user := User(NextId(UserIds(users)), username, email, HashPassword(password, salt), RoleUser, true);
      SignupKeepsValid(users, documents, chats, user);
      users := users + [user];
      r := Ok(SessionFor(user, now, key));
    }

    /** `send_message`: without a chat id (or with 0) a new chat owned by the
        caller, titled with the message cut to 50 characters, is created; with
        one, the caller's chat of that id is used, or 404 is raised with
        nothing stored. The user's message and then the reply are appended. */
    method SendMessage(caller: User, message: string, chatId: Option<int>, pick: nat)
      returns (r: Result<ChatReply, HttpError>)
      requires Valid() && caller in users && pick < |Openings|
      modifies this
      ensures Valid()
      ensures users == old(users) && documents == old(documents) && files == old(files)
      ensures chatId.None? || chatId.value == 0 ==>
        var id := NextId(ChatIds(old(chats)));
        && chats == old(chats) + [Chat(id, Truncate(message, TitleLength), caller.id, Exchange(message, pick))]
        && r == Ok(ChatReply(id, GenerateAiResponse(message, pick).message, GenerateAiResponse(message, pick).sources))
      ensures chatId.Some? && chatId.value != 0 ==>
        match OwnedChat(old(chats), chatId.value, caller.id)
        case None => r == Err(HttpError(NotFound, "Chat not found")) && chats == old(chats)
        case Some(i) =>
          && chats == old(chats)[i := old(chats)[i].(messages := old(chats)[i].messages + Exchange(message, pick))]
          && r == Ok(ChatReply(chatId.value, GenerateAiResponse(message, pick).message, GenerateAiResponse(message, pick).sources))
    {
      var userMessage := Message(message, SenderUser);
      var reply := GenerateAiResponse(message, pick);
      var aiMessage := Message(reply.message, SenderAssistant);
      assert [userMessage, aiMessage] == Exchange(message, pick);
      var id: int;
      if chatId.None? || chatId.value == 0 {
        id := NextId(ChatIds(chats));
        var title := if |message| > TitleLength then message[..TitleLength] + "..." else message;
        var chat := Chat(id, title, caller.id, [userMessage, aiMessage]);
        assert UserExists(users, caller.id);
        AddChatKeepsValid(users, documents, chats, chat);
        chats := chats + [chat];
      } else {
        id := chatId.value;
        var found := OwnedChat(chats, id, caller.id);
        if found.None? {
          return Err(HttpError(NotFound, "Chat not found"));
        }
        var index := found.value;
        var chat := chats[index];
        SetMessagesKeepsValid(users, documents, chats, index, chat.messages + [userMessage, aiMessage]);
        chats := chats[index := chat.(messages := chat.messages + [userMessage, aiMessage])];
      }
      r := Ok(ChatReply(id, reply.message, reply.sources));
    }

    /** `upload_document`: the type and size checks, then a new document owned
        by the caller with status `completed`, stored at `filePath` (the
        generated unique path). */
    method UploadDocument(caller: User, fileName: string, contentType: string, size: int, filePath: string)
      returns (r: Result<Document, HttpError>)
      requires Valid() && caller in users
      modifies this
      ensures Valid()
      ensures users == old(users) && chats == old(chats)
      ensures ValidateUpload(contentType, size).Some? ==>
        r == Err(ValidateUpload(contentType, size).value) && documents == old(documents) && files == old(files)
      ensures ValidateUpload(contentType, size).None? ==>
        var d := Document(NextId(DocumentIds(old(documents))), fileName, contentType, size, filePath,
                          caller.username, StatusCompleted, caller.id);
        && documents == old(documents) + [d] && files == old(files) + {filePath} && r == Ok(d)
    {
      if contentType !in [PdfType, DocxType, PlainTextType] {
        return Err(HttpError(BadRequest, "File type not supported"));
      }
      if size > MaxUploadSize {
        return Err(HttpError(BadRequest, "File size too large"));
      }
      files := files + {filePath};
      var d := Document(NextId(DocumentIds(documents)), fileName, contentType, size, filePath,
                        caller.username, StatusCompleted, caller.id);
      assert UserExists(users, caller.id);
      AddDocumentKeepsValid(users, documents, chats, d);
      documents := documents + [d];
      r := Ok(d);
    }

    /** `delete_document`: only the caller's own document, whatever the role;
        404 otherwise. Its file and its row are removed. */
    method DeleteDocument(caller: User, docId: int) returns (r: Result<(), HttpError>)
      requires Valid()
      modifies this
      ensures Valid()
      ensures users == old(users) && chats == old(chats)
      ensures match DeleteTarget(old(documents), caller, docId)
        case None => r == Err(HttpError(NotFound, "Document not found"))
                     && documents == old(documents) && files == old(files)
        case Some(i) => r == Ok(())
                        && documents == old(documents)[..i] + old(documents)[i + 1..]
                        && files == old(files) - {old(documents)[i].filePath}
    {
      var found := DeleteTarget(documents, caller, docId);
      if found.None? {
        return Err(HttpError(NotFound, "Document not found"));
      }
      var i := found.value;
      if documents[i].filePath in files {
        files := files - {documents[i].filePath};
      }
      RemoveDocumentKeepsValid(users, documents, chats, i);
      documents := documents[..i] + documents[i + 1..];
      r := Ok(());
    }

    /** `update_user` (admin only): 404 for an unknown id, 400 when another
        user already has the new username or email; otherwise username, email
        and role of that user are replaced and nothing else changes. */
    method UpdateUser(userId: int, username: string, email: string, role: string)
      returns (r: Result<User, HttpError>)
      requires Valid()
      modifies this
      ensures Valid()
      ensures documents == old(documents) && chats == old(chats) && files == old(files)
      ensures FindUser(old(users), userId).None? ==> r == Err(HttpError(NotFound, "User not found")) && users == old(users)
      ensures FindUser(old(users), userId).Some? && UpdateTaken(old(users), userId, username, email) ==>
        r == Err(HttpError(BadRequest, "Username or email already exists")) && users == old(users)
      ensures FindUser(old(users), userId).Some? && !UpdateTaken(old(users), userId, username, email) ==>
        var i := FindUser(old(users), userId).value;
        var u := old(users)[i].(username := username, email := email, role := role);
        users == old(users)[i := u] && r == Ok(u)
    {
      var found := FindUser(users, userId);
      if found.None? {
        return Err(HttpError(NotFound, "User not found"));
      }
      var existing := FirstWhere(users, (u: User) => u.id != userId && (u.username == username || u.email == email));
      if existing.Some? {
        return Err(HttpError(BadRequest, "Username or email already exists"));
      }
      var i := found.value;
      var u := users[i].(username := username, email := email, role := role);
      ReplaceUserKeepsValid(users, documents, chats, i, u);
      users := users[i := u];
      r := Ok(u);
    }

    /** `change_user_password` (admin only): 404 for an unknown id, then 400
        unless the new password is present and at least six characters;
        otherwise only that user's hash changes. */
    method ChangeUserPassword(userId: int, password: Option<string>, salt: nat)
      returns (r: Result<(), HttpError>)
      requires Valid()
      modifies this
      ensures Valid()
      ensures documents == old(documents) && chats == old(chats) && files == old(files)
      ensures FindUser(old(users), userId).None? ==> r == Err(HttpError(NotFound, "User not found")) && users == old(users)
      ensures FindUser(old(users), userId).Some? && !PasswordAcceptable(password) ==>
        r == Err(HttpError(BadRequest, "Password must be at least 6 characters long")) && users == old(users)
      ensures FindUser(old(users), userId).Some? && PasswordAcceptable(password) ==>
        var i := FindUser(old(users), userId).value;
        users == old(users)[i := old(users)[i].(hashedPassword := HashPassword(password.value, salt))] && r == Ok(())
    {
      var found := FindUser(users, userId);
      if found.None? {
        return Err(HttpError(NotFound, "User not found"));
      }
      if password.None? || password.value == [] || |password.value| < MinPasswordLength {
        return Err(HttpError(BadRequest, "Password must be at least 6 characters long"));
      }
      var i := found.value;
      ReplaceUserKeepsValid(users, documents, chats, i, users[i].(hashedPassword := HashPassword(password.value, salt)));
      users := users[i := users[i].(hashedPassword := HashPassword(password.value, salt))];
      r := Ok(());
    }
  }
}
