/**
 * The last-in-first-out object pool of assets/script/common/object-pool.ts. The factory
 * (an asynchronous prefab load) is outside the model: `Get` receives the object the
 * factory would produce.
 */
module ObjectPools {

  class ObjectPool<T> {
    var pool: seq<T>

    constructor()
      ensures pool == []
    {
      pool := [];
    }

    /** `get`: pops the most recently put object, or returns the factory's when the pool is empty. */
    method Get(made: T) returns (result: T)
      modifies this
      ensures old(pool) != [] ==> result == old(pool)[|old(pool)| - 1] && pool == old(pool)[..|old(pool)| - 1]
      ensures old(pool) == [] ==> result == made && pool == []
      ensures |pool| <= |old(pool)|
    {
      if |pool| > 0 {
        result := pool[|pool| - 1];
        pool := pool[..|pool| - 1];
      } else {
        result := made;
      }
    }

    /** `put`: pushes the object on top. */
    method Put(obj: T)
      modifies this
      ensures pool == old(pool) + [obj]
    {
      pool := pool + [obj];
    }
  }

  /** A `put` followed by a `get` hands the same object back and restores the pool. */
  method PutThenGet<T>(p: ObjectPool<T>, x: T, made: T) returns (y: T)
    modifies p
    ensures y == x && p.pool == old(p.pool)
  {
    p.Put(x);
    y := p.Get(made);
    assert (old(p.pool) + [x])[..|old(p.pool)|] == old(p.pool);
  }
}
