/**
 * Sessions one call at a time (database/Session.java, database/DataStore.java): what each call does to the lock, the
 * active session and the stored data.  A session works on its own copy of the data; committing puts the copy back.
 */
module Sessions {
  import opened CodeUnits
  import opened DataTree

  /** What writing an entry does to a copy of the data; an error may leave it half written. */
  datatype Attempt = Attempt(data: Node, error: Option<nat>)

  /** Evaluating a path in the data and putting an entry there. */
  type Writer = (Node, Text, Node) -> Attempt

  /** The static fields of `DataStore` and `Session`. */
  class Database {
    var permits: nat
    var root: Node
    var activeWriteSession: Session?

    ghost predicate Valid()
      reads this
    {
      && permits <= 1
      && (activeWriteSession != null <==> permits == 0)
      && (activeWriteSession != null ==> activeWriteSession.isWriteSession && activeWriteSession.database == this)
    }

    constructor (root: Node)
      ensures Valid() && permits == 1 && this.root == root && activeWriteSession == null
    {
      this.root, permits, activeWriteSession := root, 1, null;
    }

    method TryAcquire() returns (acquired: bool)
      modifies this`permits
      ensures acquired == (old(permits) > 0) && permits == if acquired then old(permits) - 1 else old(permits)
    {
      acquired := permits > 0;
      if acquired {
        permits := permits - 1;
      }
    }

    method Release()
      modifies this`permits
      ensures permits == old(permits) + 1
    {
      permits := permits + 1;
    }

    /** `makeWriteSession`; null stands for the XDError when the lock is not to be had. */
    method MakeWriteSession() returns (session: Session?)
      requires Valid()
      modifies this`permits, this`activeWriteSession
      ensures Valid() && (session != null <==> old(permits) == 1)
      ensures session == null ==> activeWriteSession == old(activeWriteSession) && permits == old(permits)
      ensures session != null ==> fresh(session) && activeWriteSession == session && permits == 0
      ensures session != null ==> session.database == this && session.isWriteSession && session.root == root
    {
      var acquired := TryAcquire();
      if !acquired {
        return null;
      }
      session := new Session(this, root, true);
      activeWriteSession := session;
    }

    /** `atomicPut`: whatever goes wrong, the lock is as it was, and a failed put changes nothing. */
    method AtomicPut(path: Text, given: Node, writer: Writer) returns (done: bool)
      requires Valid()
      modifies this
      ensures Valid() && permits == old(permits) && activeWriteSession == old(activeWriteSession)
      ensures done == (old(permits) == 1 && writer(old(root), path, given).error.None?)
      ensures root == if done then writer(old(root), path, given).data else old(root)
    {
      var session := MakeWriteSession();
      if session == null {
        return false;
      }
      var attempt := writer(session.root, path, given);
      session.root := attempt.data;
      done := attempt.error.None?;
      if done {
        session.CommitData();
      }
      session.Discard();
    }
  }

  class Session {
    const database: Database
    const isWriteSession: bool
    var root: Node

    constructor (database: Database, root: Node, isWriteSession: bool)
      ensures this.database == database && this.root == root && this.isWriteSession == isWriteSession
    {
      this.database, this.root, this.isWriteSession := database, root, isWriteSession;
    }

    /** `root.commit()`. */
    method CommitData()
      modifies database`root
      ensures database.root == root
    {
      database.root := root;
    }

    /** Releases the lock for the session that is active, and for no other. */
    method Close()
      requires database.Valid()
      modifies database`permits, database`activeWriteSession
      ensures database.Valid()
      ensures if old(database.activeWriteSession) == this
              then database.activeWriteSession == null && database.permits == 1
              else database.activeWriteSession == old(database.activeWriteSession) && database.permits == old(database.permits)
    {
      if database.activeWriteSession == this {
        database.activeWriteSession := null;
        database.Release();
      }
    }

    method Commit()
      requires database.Valid()
      modifies database
      ensures database.Valid() && database.root == root
      ensures if isWriteSession && old(database.activeWriteSession) == this
              then database.activeWriteSession == null && database.permits == 1
              else database.activeWriteSession == old(database.activeWriteSession) && database.permits == old(database.permits)
    {
      CommitData();
      if isWriteSession {
        Close();
      }
    }

    /** Harmless after a commit, and any number of times. */
    method Discard()
      requires database.Valid()
      modifies database`permits, database`activeWriteSession
      ensures database.Valid()
      ensures if isWriteSession && old(database.activeWriteSession) == this
              then database.activeWriteSession == null && database.permits == 1
              else database.activeWriteSession == old(database.activeWriteSession) && database.permits == old(database.permits)
    {
      if isWriteSession {
        Close();
      }
    }

    /** `makeWriteSubsession`; null stands for the XDError under a read session or one that is not active. */
    method MakeWriteSubsession() returns (session: Session?)
      ensures session != null <==> isWriteSession && database.activeWriteSession == this
      ensures session != null ==> fresh(session) && session.database == database && session.isWriteSession
      ensures session != null ==> session.root == database.root
    {
      if !isWriteSession || database.activeWriteSession != this {
        return null;
      }
      session := new Session(database, database.root, true);
    }
  }
}
