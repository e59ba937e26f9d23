/**
 * The database connection pool `connection_pool`: a FIFO list of open MySQL
 * handles with the counters `freeConn`, `curConn` and `maxConn` (each an
 * `unsigned int`) and the semaphore `reserve`, whose count is kept here as a
 * number. Handles are opaque values; `mysql_init`/`mysql_real_connect` become the
 * caller's list of answers, one per attempt.
 */
module SqlConnectionPool {
  import opened Wrappers

  /** An open `MYSQL*` handle; only its identity matters. */
  datatype Handle = Handle(id: int)

  /** `x + n` on an `unsigned int`, modulo 2^32. */
  function Add32(x: int, n: nat): (r: int)
    requires IsUint32(x)
    ensures IsUint32(r)
    ensures x + n <= UINT_MAX ==> r == x + n
  {
    (x + n) % (UINT_MAX + 1)
  }

  /** One more `++x` after `n` of them is `n + 1` of them. */
  lemma {:induction false} AddInc32(x: int, n: nat)
    requires IsUint32(x)
    ensures Inc32(Add32(x, n)) == Add32(x, n + 1)
  {
    var a := Add32(x, n);
    if a == UINT_MAX {
      assert (x + n) % (UINT_MAX + 1) == UINT_MAX;
      assert (x + n + 1) % (UINT_MAX + 1) == 0;
    } else {
      assert (x + n + 1) % (UINT_MAX + 1) == a + 1;
    }
  }

  /** Every attempt to open a connection succeeded. */
  predicate AllConnected(conns: seq<Option<Handle>>)
  {
    forall i :: 0 <= i < |conns| ==> conns[i].Some?
  }

  /** The handles of a run of successful attempts, in order. */
  function Handles(conns: seq<Option<Handle>>): (r: seq<Handle>)
    requires AllConnected(conns)
    ensures |r| == |conns|
    ensures forall i :: 0 <= i < |r| ==> conns[i] == Some(r[i])
  {
    seq(|conns|, i requires 0 <= i < |conns| && conns[i].Some? => conns[i].value)
  }

  /** `std::string& operator=(char)`: the `int` port lands in a one-character string. */
  function PortText(port: int): (r: string)
    ensures |r| == 1 && r[0] as int == port % 256
  {
    [(port % 256) as char]
  }

  class ConnectionPool {
    var connList: seq<Handle>
    var freeConn: int
    var curConn: int
    var maxConn: int
    /** The count of the semaphore `reserve`. */
    var reserve: int
    /** The handles handed out by `getConnection` and not yet given back. */
    ghost var checkedOut: multiset<Handle>
    var url: string
    var user: string
    var passwd: string
    var database: string
    var port: string

    /** Every counter holds an `unsigned int`. */
    predicate Bounded()
      reads this
    {
      IsUint32(freeConn) && IsUint32(curConn) && IsUint32(maxConn) && reserve >= 0
    }

    /**
     * The bookkeeping the pool keeps: `freeConn` and the semaphore count the free
     * list, `curConn` counts the handles out, and together they make `maxConn`.
     */
    ghost predicate Valid()
      reads this
    {
      && Bounded()
      && freeConn == |connList|
      && reserve == |connList|
      && curConn == |checkedOut|
      && freeConn + curConn == maxConn
    }

    /**
     * `connection_pool()`: both counters zero and the list empty. The source
     * leaves `maxConn` uninitialised; the model starts it at zero.
     */
    constructor ()
      ensures connList == [] && freeConn == 0 && curConn == 0 && maxConn == 0 && reserve == 0
      ensures checkedOut == multiset{}
      ensures Valid()
    {
      connList, freeConn, curConn, maxConn, reserve := [], 0, 0, 0, 0;
      checkedOut := multiset{};
      url, user, passwd, database, port := [], [], [], [], [];
    }

    /**
     * `init(url, user, passwd, database, port, maxConn)`. Attempt `i` of the loop
     * is answered by `conns[i]`: `None` when `mysql_init` or `mysql_real_connect`
     * returns null, which makes the process `exit(1)` (`ok` false). Otherwise each
     * handle is appended, `freeConn` counts it, and the semaphore and `maxConn`
     * are set to `freeConn`.
     */
    method Init(url: string, user: string, passwd: string, database: string, port: int,
                maxConn: int, conns: seq<Option<Handle>>) returns (ok: bool)
      requires Bounded() && IsUint32(maxConn) && |conns| == maxConn
      modifies this
      ensures ok <==> AllConnected(conns)
      ensures this.url == url && this.user == user && this.passwd == passwd
      ensures this.database == database && this.port == PortText(port)
      ensures ok ==> connList == old(connList) + Handles(conns)
      ensures ok ==> freeConn == Add32(old(freeConn), maxConn)
      ensures ok ==> this.maxConn == freeConn && reserve == freeConn
      ensures ok ==> curConn == old(curConn) && checkedOut == old(checkedOut)
      ensures ok && old(Valid()) && old(connList) == [] && old(curConn) == 0 ==> Valid()
    {
      this.url, this.user, this.passwd, this.database := url, user, passwd, database;
      this.port := PortText(port);
      ok := Fill(conns);
      if !ok {
        return;
      }
      reserve := freeConn;
      this.maxConn := freeConn;
    }

    /** The filling loop of `init`: one attempt per entry of `conns`. */
    method Fill(conns: seq<Option<Handle>>) returns (ok: bool)
      requires IsUint32(freeConn)
      modifies this`connList, this`freeConn
      ensures ok <==> AllConnected(conns)
      ensures IsUint32(freeConn)
      ensures ok ==> connList == old(connList) + Handles(conns)
      ensures ok ==> freeConn == Add32(old(freeConn), |conns|)
    {
      var i := 0;
      while i < |conns|
        invariant 0 <= i <= |conns|
        invariant AllConnected(conns[..i])
        invariant connList == old(connList) + Handles(conns[..i])
        invariant IsUint32(freeConn) && freeConn == Add32(old(freeConn), i)
      {
        var conn := conns[i];
        if conn == None {
          assert !AllConnected(conns) by {
            assert !conns[i].Some?;
          }
          return false;
        }
        assert conns[..i + 1] == conns[..i] + [conn];
        connList := connList + [conn.value];
        AddInc32(old(freeConn), i);
        freeConn := Inc32(freeConn);
        i := i + 1;
      }
      assert conns[..i] == conns;
      ok := true;
    }

    /**
     * `getConnection()`: null for an empty free list, with nothing changed.
     * Otherwise it waits on the semaphore (which must not block, so its count is
     * positive) and hands out the list's front.
     */
    method GetConnection() returns (conn: Option<Handle>)
      requires Bounded()
      requires connList != [] ==> reserve > 0
      modifies this
      ensures old(connList) == [] ==> conn == None && unchanged(this)
      ensures old(connList) != [] ==> conn == Some(old(connList)[0]) && connList == old(connList)[1..]
      ensures old(connList) != [] ==> freeConn == Dec32(old(freeConn)) && curConn == Inc32(old(curConn))
      ensures old(connList) != [] ==> reserve == old(reserve) - 1 && maxConn == old(maxConn)
      ensures old(connList) != [] ==> checkedOut == old(checkedOut) + multiset{old(connList)[0]}
      ensures old(connList) != [] ==> url == old(url) && user == old(user) && port == old(port)
      ensures old(connList) != [] ==> passwd == old(passwd) && database == old(database)
      ensures Bounded()
      ensures old(Valid()) ==> Valid()
    {
      if |connList| == 0 {
        return None;
      }
      reserve := reserve - 1;
      conn := Some(connList[0]);
      connList := connList[1..];
      freeConn := Dec32(freeConn);
      curConn := Inc32(curConn);
      checkedOut := checkedOut + multiset{conn.value};
    }

    /**
     * `releaseConnection(conn)`: false for null, with nothing changed. Otherwise
     * the handle goes to the back of the list, the counters move by one each
     * (as `unsigned int`s) and the semaphore is posted. The bookkeeping stays
     * valid when the handle was one handed out.
     */
    method ReleaseConnection(conn: Option<Handle>) returns (ok: bool)
      requires Bounded()
      modifies this
      ensures ok <==> conn.Some?
      ensures !ok ==> unchanged(this)
      ensures ok ==> connList == old(connList) + [conn.value]
      ensures ok ==> freeConn == Inc32(old(freeConn)) && curConn == Dec32(old(curConn))
      ensures ok ==> reserve == old(reserve) + 1 && maxConn == old(maxConn)
      ensures ok ==> checkedOut == old(checkedOut) - multiset{conn.value}
      ensures ok ==> url == old(url) && user == old(user) && port == old(port)
      ensures ok ==> passwd == old(passwd) && database == old(database)
      ensures Bounded()
      ensures old(Valid()) && conn.Some? && conn.value in old(checkedOut) ==> Valid()
    {
      if conn == None {
        return false;
      }
      connList := connList + [conn.value];
      freeConn := Inc32(freeConn);
      curConn := Dec32(curConn);
      checkedOut := checkedOut - multiset{conn.value};
      reserve := reserve + 1;
      ok := true;
    }

    /**
     * `destroyPool()`: a non-empty list has each handle closed in order
     * (`closed`), is emptied and both counters are zeroed; an empty one is left
     * as it is. `maxConn` and the semaphore are not touched.
     */
    method DestroyPool() returns (closed: seq<Handle>)
      modifies this
      ensures old(connList) == [] ==> closed == [] && unchanged(this)
      ensures old(connList) != [] ==> closed == old(connList) && connList == []
      ensures old(connList) != [] ==> curConn == 0 && freeConn == 0
      ensures old(connList) != [] ==> maxConn == old(maxConn) && reserve == old(reserve)
      ensures checkedOut == old(checkedOut)
      ensures url == old(url) && user == old(user) && passwd == old(passwd)
      ensures database == old(database) && port == old(port)
    {
      closed := [];
      if |connList| > 0 {
        for i := 0 to |connList|
          invariant closed == connList[..i]
        {
          closed := closed + [connList[i]];
        }
        curConn := 0;
        freeConn := 0;
        connList := [];
      }
    }
  }

  /**
   * `connectionRAII`: construction checks a handle out of the pool into the
   * caller's variable, and `Release` (the destructor) gives that same handle
   * back.
   */
  class ConnectionRaii {
    const connRAII: Option<Handle>
    const poolRAII: ConnectionPool

    constructor (connPool: ConnectionPool)
      requires connPool.Bounded()
      requires connPool.connList != [] ==> connPool.reserve > 0
      modifies connPool
      ensures poolRAII == connPool
      ensures old(connPool.connList) == [] ==> connRAII == None
      ensures old(connPool.connList) != [] ==> connRAII == Some(old(connPool.connList)[0])
      ensures connPool.connList == if old(connPool.connList) == [] then [] else old(connPool.connList)[1..]
      ensures old(connPool.connList) != [] ==> connPool.freeConn == Dec32(old(connPool.freeConn))
      ensures old(connPool.connList) != [] ==> connPool.curConn == Inc32(old(connPool.curConn))
      ensures old(connPool.connList) != [] ==> connPool.reserve == old(connPool.reserve) - 1
      ensures connPool.maxConn == old(connPool.maxConn)
      ensures connPool.Bounded()
      ensures old(connPool.Valid()) ==> connPool.Valid()
      ensures connRAII.Some? ==> connRAII.value in connPool.checkedOut
    {
      var c := connPool.GetConnection();
      connRAII := c;
      poolRAII := connPool;
    }

    /** `~connectionRAII()`: gives the handle back (nothing happens for null). */
    method Release()
      requires poolRAII.Bounded()
      modifies poolRAII
      ensures connRAII.Some? ==> poolRAII.connList == old(poolRAII.connList) + [connRAII.value]
      ensures connRAII.Some? ==> poolRAII.freeConn == Inc32(old(poolRAII.freeConn))
      ensures connRAII.Some? ==> poolRAII.curConn == Dec32(old(poolRAII.curConn))
      ensures connRAII.Some? ==> poolRAII.reserve == old(poolRAII.reserve) + 1
      ensures connRAII.Some? ==> poolRAII.maxConn == old(poolRAII.maxConn)
      ensures connRAII == None ==> unchanged(poolRAII)
      ensures old(poolRAII.Valid()) && connRAII.Some? && connRAII.value in old(poolRAII.checkedOut) ==> poolRAII.Valid()
    {
      var _ := poolRAII.ReleaseConnection(connRAII);
    }
  }

  /**
   * A bracket `{ connectionRAII c(&conn, pool); … }` on a valid pool with a free
   * handle: the front handle is used and comes back at the end of the list, and
   * the counters are as before.
   */
  method Bracket(pool: ConnectionPool) returns (used: Option<Handle>)
    requires pool.Valid() && pool.connList != []
    modifies pool
    ensures used == Some(old(pool.connList)[0])
    ensures pool.connList == old(pool.connList)[1..] + [old(pool.connList)[0]]
    ensures pool.freeConn == old(pool.freeConn) && pool.curConn == old(pool.curConn)
    ensures pool.maxConn == old(pool.maxConn) && pool.reserve == old(pool.reserve)
    ensures pool.Valid()
  {
    var raii := new ConnectionRaii(pool);
    used := raii.connRAII;
    raii.Release();
    IncDecInverse(old(pool.freeConn));
    IncDecInverse(old(pool.curConn));
  }
}
