// The account roster of ctx.cpp with its two lookup tables, and the operations of
// core/account.cpp that change it.
module AccountIndex {
  import opened Lists

  // 0 stands for the null QUuid.
  type Uuid = nat

  // A client_connection.
  type ConnId = nat

  class Account {
    var m_uid: Uuid
    var m_name: string
    var m_nick: string
    var connections: seq<ConnId>

    constructor (account_name: string)
      ensures m_uid == 0 && m_name == account_name && m_nick == account_name && connections == []
    {
      m_uid, m_name, m_nick, connections := 0, account_name, account_name, [];
    }

    predicate IsLoggedIn()
      reads this
    {
      m_name != ""
    }

    method AddConnection(conn: ConnId)
      modifies `connections
      ensures connections == old(connections) + [conn]
    {
      connections := connections + [conn];
    }
  }

  class Ctx {
    var accounts: set<Account>
    var accounts_lookup_uuid: map<Uuid, Account>
    var accounts_lookup_name: map<string, Account>

    // Each table is exactly the index of the roster: by uid of every account, by name
    // of every named one.
    ghost predicate Indexed()
      reads this, accounts
    {
      && accounts_lookup_uuid.Values == accounts
      && (forall u :: u in accounts_lookup_uuid ==> accounts_lookup_uuid[u].m_uid == u)
      && (forall a :: a in accounts ==> a.m_uid in accounts_lookup_uuid && accounts_lookup_uuid[a.m_uid] == a)
      && (forall n :: n in accounts_lookup_name ==>
            n != "" && accounts_lookup_name[n] in accounts && accounts_lookup_name[n].m_name == n)
      && (forall a :: a in accounts && a.m_name != "" ==>
            a.m_name in accounts_lookup_name && accounts_lookup_name[a.m_name] == a)
    }

    constructor ()
      ensures Indexed() && accounts == {}
    {
      accounts, accounts_lookup_uuid, accounts_lookup_name := {}, map[], map[];
    }

    // A lookup is a scan of the roster: null exactly if no account has the uid, and
    // otherwise the only one that has it.
    method GetByUid(uid: Uuid) returns (a: Account?)
      requires Indexed()
      ensures a == null <==> forall b :: b in accounts ==> b.m_uid != uid
      ensures a != null ==> a in accounts && a.m_uid == uid && forall b :: b in accounts && b.m_uid == uid ==> b == a
    {
      a := if uid in accounts_lookup_uuid then accounts_lookup_uuid[uid] else null;
    }

    method GetByName(name: string) returns (a: Account?)
      requires Indexed()
      ensures a == null <==> name == "" || forall b :: b in accounts ==> b.m_name != name
      ensures a != null ==> a in accounts && a.m_name == name
      ensures a != null ==> forall b :: b in accounts && b.m_name == name ==> b == a
    {
      a := if name in accounts_lookup_name then accounts_lookup_name[name] else null;
    }

    method AccountUsernameExists(username: string) returns (r: bool)
      requires Indexed()
      ensures r <==> username != "" && exists a :: a in accounts && a.m_name == username
    {
      r := username in accounts_lookup_name;
      if r {
        assert accounts_lookup_name[username] in accounts;
      }
    }

    // account_insert_cache, for an account with a uid and a name of its own.
    method AccountInsertCache(ptr: Account)
      requires Indexed() && ptr !in accounts
      requires forall a :: a in accounts ==> a.m_uid != ptr.m_uid && (ptr.m_name != "" ==> a.m_name != ptr.m_name)
      modifies this
      ensures Indexed() && accounts == old(accounts) + {ptr}
    {
      ghost var was := accounts_lookup_uuid;
      accounts := accounts + {ptr};
      accounts_lookup_uuid := accounts_lookup_uuid[ptr.m_uid := ptr];
      if ptr.m_name != "" {
        accounts_lookup_name := accounts_lookup_name[ptr.m_name := ptr];
      }
      InsertedValues(was, ptr.m_uid, ptr);
    }

    // account_remove_cache; a null pointer is ignored, and so is an account that has
    // left the roster already and whose uid and name are not in use again.
    method AccountRemoveCache(ptr: Account?)
      requires Indexed()
      requires ptr != null && ptr !in accounts ==>
                 forall a :: a in accounts ==> a.m_uid != ptr.m_uid && (ptr.m_name != "" ==> a.m_name != ptr.m_name)
      modifies this
      ensures Indexed() && accounts == if ptr == null then old(accounts) else old(accounts) - {ptr}
    {
      if ptr == null {
        return;
      }
      ghost var was := accounts_lookup_uuid;
      accounts := accounts - {ptr};
      accounts_lookup_uuid := accounts_lookup_uuid - {ptr.m_uid};
      if ptr.m_name != "" {
        accounts_lookup_name := accounts_lookup_name - {ptr.m_name};
      }
      RemovedValues(was, ptr.m_uid, ptr);
    }

    // Account::create_from_db, for any row of the table: an account of the roster with
    // its uid is the account of that row, so a row loaded before gives that account.
    method CreateFromDb(id: Uuid, username: string) returns (account: Account)
      requires Indexed()
      requires forall a :: a in accounts && a.m_uid == id ==> username != "" && a.m_name == username
      modifies this
      ensures Indexed() && account in accounts && account.m_name == username
      ensures forall a :: a in old(accounts) && a.m_uid == id ==> account == a
      ensures if exists a :: a in old(accounts) && username != "" && a.m_name == username
              then accounts == old(accounts)
              else
                && fresh(account) && accounts == old(accounts) + {account} && account.m_uid == id
                && account.m_nick == username && account.connections == []
    {
      var ptr := GetByName(username);
      if ptr != null {
        return ptr;
      }
      account := new Account(username);
      account.m_uid := id;
      account.m_name := username;
      AccountInsertCache(account);
    }

    // The account that try_finalize_setup makes for a client that did not log in.
    method CreateAnonymous(nick: string, randomUid: Uuid) returns (account: Account)
      requires Indexed() && forall a :: a in accounts ==> a.m_uid != randomUid
      modifies this
      ensures Indexed() && fresh(account) && accounts == old(accounts) + {account}
      ensures account.m_uid == randomUid && !account.IsLoggedIn() && account.m_nick == nick && account.connections == []
    {
      account := new Account("");
      account.m_nick := nick;
      account.m_uid := randomUid;
      AccountInsertCache(account);
    }

    // Account::onConnectionDisconnected on `account`: an account without a name leaves
    // the roster, whatever connections it still has.
    method OnConnectionDisconnected(account: Account, conn: ConnId)
      requires Indexed()
      modifies this, account`connections
      ensures Indexed()
      ensures account.connections == Without(old(account.connections), conn)
      ensures accounts == if account.IsLoggedIn() then old(accounts)
                          else set a | a in old(accounts) && a.m_uid != account.m_uid
    {
      account.connections := Without(account.connections, conn);
      if !account.IsLoggedIn() {
        var self := GetByUid(account.m_uid);
        if self == null {
          return;
        }
        AccountRemoveCache(self);
      }
    }

    // account->merge(from): `from` gives up its connections and its place, unless it is
    // logged in itself. It may have left the roster before.
    method Merge(account: Account, from: Account)
      requires Indexed() && (account == from ==> from.IsLoggedIn())
      requires from !in accounts && !from.IsLoggedIn() ==> forall a :: a in accounts ==> a.m_uid != from.m_uid
      modifies this, account`connections, from`connections
      ensures Indexed()
      ensures from.IsLoggedIn() ==>
                && accounts == old(accounts) && from.connections == old(from.connections)
                && account.connections == old(account.connections)
      ensures !from.IsLoggedIn() ==>
                && accounts == old(accounts) - {from} && from.connections == []
                && account.connections == old(account.connections) + old(from.connections)
    {
      if from.IsLoggedIn() {
        return;
      }
      for i := 0 to |from.connections|
        invariant from.connections == old(from.connections)
        invariant account.connections == old(account.connections) + old(from.connections)[..i]
        invariant Indexed() && accounts == old(accounts)
      {
        account.AddConnection(from.connections[i]);
      }
      from.connections := [];
      AccountRemoveCache(from);
    }
  }

  lemma InsertedValues(m: map<Uuid, Account>, u: Uuid, a: Account)
    requires u !in m
    ensures m[u := a].Values == m.Values + {a}
  {
    var n := m[u := a];
    assert n[u] == a;
    forall b | b in m.Values ensures b in n.Values {
      var v :| v in m && m[v] == b;
      assert n[v] == b;
    }
  }

  lemma RemovedValues(m: map<Uuid, Account>, u: Uuid, a: Account)
    requires u in m ==> m[u] == a
    requires forall v :: v in m && m[v] == a ==> v == u
    ensures (m - {u}).Values == m.Values - {a}
  {
    var n := m - {u};
    forall b | b in m.Values && b != a ensures b in n.Values {
      var v :| v in m && m[v] == b;
      assert n[v] == b;
    }
  }
}
