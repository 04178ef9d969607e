/**
 PostgresStorageConnection: the statements of each transaction in the order the source
 issues them, on a working copy that only a commit makes permanent. Every early return
 and every violated constraint abandons the copy. Each method is proved against the
 transaction of module Relations.

 The rows a SELECT yields come from the database, in an order it chooses, and are a
 parameter; so is the fate of the transaction.
 */
module Storage {
  import opened Basics
  import opened Protocol
  import opened Relations

  // ----- Statements -----------------------------------------------------------------

  /** INSERT INTO Client, under UNIQUE (email). */
  function InsertClient(db: Db, id: U64, row: Client): Option<Db> {
    if exists other | other in db.clients :: db.clients[other].email == row.email then None
    else Some(db.(clients := db.clients[id := row]))
  }

  /** INSERT INTO ClientToContact, under its foreign keys and UNIQUE (client_id, friend_id). */
  function InsertLink(db: Db, row: Link): Option<Db> {
    if row.clientId !in db.clients || row.friendId !in db.clients || row in db.contacts then None
    else Some(db.(contacts := db.contacts + [row]))
  }

  /** INSERT INTO Chat DEFAULT VALUES RETURNING id. */
  function InsertChat(db: Db, id: U64): Db {
    db.(chats := db.chats + {id})
  }

  /** INSERT INTO ClientToChat, under its foreign keys. */
  function InsertMember(db: Db, row: Member): Option<Db> {
    if row.clientId !in db.clients || row.chatId !in db.chats then None
    else Some(db.(members := db.members + [row]))
  }

  /** INSERT INTO Message, under its foreign keys. */
  function InsertMessage(db: Db, row: Posted): Option<Db> {
    if row.senderId !in db.clients || row.chatId !in db.chats then None
    else Some(db.(messages := db.messages + [row]))
  }

  /** The foreign keys of ClientToChat. */
  predicate MembersReference(db: Db) {
    forall m | m in db.members :: m.clientId in db.clients && m.chatId in db.chats
  }

  /** The rows of SELECT id FROM Client WHERE email = email, in some order. */
  predicate IdsByEmail(db: Db, email: Bytes, rows: seq<U64>) {
    && (forall id | id in rows :: HasEmail(db, email, id))
    && (forall id | id in db.clients && db.clients[id].email == email :: id in rows)
    && (forall i, j | 0 <= i < j < |rows| :: rows[i] != rows[j])
  }

  /** SELECT 1 FROM MyChats, FriendChat WHERE MyChats.chat_id = FriendChat.chat_id. */
  predicate CommonChatRow(members: seq<Member>, a: U64, b: U64) {
    exists i, j | 0 <= i < |members| && 0 <= j < |members| ::
      members[i].clientId == a && members[j].clientId == b && members[i].chatId == members[j].chatId
  }

  lemma CommonChatRowFindsChat(db: Db, a: U64, b: U64)
    ensures CommonChatRow(db.members, a, b) <==> HaveCommonChat(db, a, b)
  {
    if CommonChatRow(db.members, a, b) {
      var i, j :| && 0 <= i < |db.members| && 0 <= j < |db.members|
                  && db.members[i].clientId == a && db.members[j].clientId == b
                  && db.members[i].chatId == db.members[j].chatId;
      assert IsMember(db.members, a, db.members[i].chatId) && IsMember(db.members, b, db.members[i].chatId);
    }
  }

  /** UNIQUE (email) leaves at most one row. */
  lemma AtMostOneRow(db: Db, email: Bytes, rows: seq<U64>)
    requires EmailsUnique(db) && IdsByEmail(db, email, rows)
    ensures rows == [] <==> !EmailTaken(db, email)
    ensures |rows| <= 1
  {
    if rows != [] {
      assert HasEmail(db, email, rows[0]) && HasEmail(db, email, rows[|rows| - 1]);
    }
  }

  // ----- The connection -------------------------------------------------------------

  class PostgresStorage {
    const sha: Hash
    var db: Db

    constructor (sha: Hash)
      ensures this.sha == sha && db == EMPTY_DB
    {
      this.sha := sha;
      db := EMPTY_DB;
    }

    method Registration(name: Bytes, email: Bytes, password: Bytes, tx: Tx) returns (ok: bool)
      modifies this
      ensures Done(db, ok) == Relations.Registration(sha, old(db), name, email, password, tx)
    {
      var txn := InsertClient(db, tx.clientId, Client(name, email, sha(password)));
      if txn.None? {
        assert EmailTaken(db, email) by {
          var other :| other in db.clients && db.clients[other].email == email;
          assert HasEmail(db, email, other);
        }
        return false;
      }
      assert !EmailTaken(db, email);
      if !tx.commits { return false; }
      db := txn.value;
      return true;
    }

    /** The id and name of the account; None for the exceptions the source throws. */
    method Login(email: Bytes, password: Bytes, rows: seq<U64>, tx: Tx) returns (r: Option<(U64, Bytes)>)
      requires EmailsUnique(db) && IdsByEmail(db, email, rows)
      ensures r.Some? <==> tx.commits && exists id :: CanLogin(sha, db, email, password, id)
      ensures r.Some? ==> CanLogin(sha, db, email, password, r.value.0) && r.value.1 == db.clients[r.value.0].name
    {
      AtMostOneRow(db, email, rows);
      if !tx.commits { return None; }
      if rows == [] {
        return None;
      } else {
        assert forall id | HasEmail(db, email, id) :: id == rows[0];
        if |rows| == 1 && db.clients[rows[0]].passwordHash != sha(password) {
          return None;
        } else {
          assert CanLogin(sha, db, email, password, rows[0]);
          return Some((rows[0], db.clients[rows[0]].name));
        }
      }
    }

    method SendMessage(sender: U64, chat: U64, text: Bytes, tx: Tx) returns (ok: bool)
      requires MembersReference(db)
      modifies this
      ensures Done(db, ok) == Relations.SendMessage(old(db), sender, chat, text, tx)
    {
      if !IsMember(db.members, sender, chat) { return false; }
      var txn := InsertMessage(db, Posted(sender, chat, text));
      assert txn.Some? by {
        var i :| 0 <= i < |db.members| && db.members[i].clientId == sender && db.members[i].chatId == chat;
        assert db.members[i] in db.members;
      }
      if !tx.commits { return false; }
      db := txn.value;
      return true;
    }

    method AddContact(user: U64, email: Bytes, rows: seq<U64>, tx: Tx) returns (ok: bool)
      requires EmailsUnique(db) && IdsByEmail(db, email, rows)
      modifies this
      ensures Done(db, ok) == Relations.AddContact(old(db), user, email, tx)
    {
      AtMostOneRow(db, email, rows);
      if rows == [] { return false; }
      var contact := rows[0];
      assert HasEmail(db, email, contact);
      var txn := InsertLink(db, Link(user, contact));
      if txn.None? { return false; }
      var both := InsertLink(txn.value, Link(contact, user));
      if both.None? { return false; }
      if !tx.commits { return false; }
      assert db.contacts + [Link(user, contact)] + [Link(contact, user)] ==
             db.contacts + [Link(user, contact), Link(contact, user)];
      db := both.value;
      return true;
    }

    method CreateChat(user: U64, userName: Bytes, friend: U64, tx: Tx) returns (ok: bool)
      modifies this
      ensures Done(db, ok) == Relations.CreateChat(old(db), user, userName, friend, tx)
    {
      CommonChatRowFindsChat(db, user, friend);
      if CommonChatRow(db.members, user, friend) { return false; }
      var txn := InsertChat(db, tx.chatId);
      if friend !in txn.clients { return false; }
      var usersTitle := Title(txn.clients[friend].name);
      var friendsTitle := Title(userName);
      var one := InsertMember(txn, Member(user, tx.chatId, usersTitle));
      if one.None? { return false; }
      var both := InsertMember(one.value, Member(friend, tx.chatId, friendsTitle));
      if both.None? { return false; }
      if !tx.commits { return false; }
      assert both.value.members ==
             db.members + [Member(user, tx.chatId, usersTitle), Member(friend, tx.chatId, friendsTitle)];
      db := both.value;
      return true;
    }

    /** The response is built row by row; it stays empty when the transaction fails. */
    method GetChats(user: U64, rows: seq<ChatInfo>, tx: Tx) returns (resp: seq<ChatInfo>)
      requires multiset(rows) == multiset(ChatsOf(db.members, user))
      ensures multiset(resp) == if tx.commits then multiset(ChatsOf(db.members, user)) else multiset{}
    {
      resp := [];
      if !tx.commits { return; }
      for i := 0 to |rows|
        invariant resp == rows[..i]
      {
        resp := resp + [ChatInfo(rows[i].chatId, rows[i].title)];
      }
      assert rows[..|rows|] == rows;
    }

    method GetContacts(user: U64, rows: seq<ContactInfo>, tx: Tx) returns (resp: seq<ContactInfo>)
      requires multiset(rows) == multiset(ContactsOf(db.clients, db.contacts, user))
      ensures multiset(resp) == if tx.commits then multiset(ContactsOf(db.clients, db.contacts, user)) else multiset{}
    {
      resp := [];
      if !tx.commits { return; }
      for i := 0 to |rows|
        invariant resp == rows[..i]
      {
        resp := resp + [ContactInfo(rows[i].userId, rows[i].name, rows[i].email)];
      }
      assert rows[..|rows|] == rows;
    }

    method GetMessages(chat: U64, rows: seq<Mesg>, tx: Tx) returns (resp: seq<Mesg>)
      requires multiset(rows) == multiset(MessagesIn(db.messages, chat))
      ensures multiset(resp) == if tx.commits then multiset(MessagesIn(db.messages, chat)) else multiset{}
    {
      resp := [];
      if !tx.commits { return; }
      for i := 0 to |rows|
        invariant resp == rows[..i]
      {
        resp := resp + [Mesg(rows[i].senderId, rows[i].text)];
      }
      assert rows[..|rows|] == rows;
    }
  }
}
