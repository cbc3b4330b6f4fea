/**
 * `get_user` and its `user_cache` (main.py lines 51-62): a dictionary from
 * user id to user record that lives for the whole run. A cached id is
 * answered from the dictionary; any other id is fetched from `/users/{id}`
 * and the answer stored before it is returned.
 */
module Users {
  import opened Wrappers
  import opened Posts

  class UserCache {
    /** The cached user records. */
    var entries: map<string, User>
    /** The ids requested from the server so far, in order. */
    ghost var requests: seq<string>

    /** `user_cache = {}` */
    constructor ()
      ensures entries == map[] && requests == []
    {
      entries := map[];
      requests := [];
    }

    /** Every cached record is the server's record for that id. */
    ghost predicate Agrees(server: Server)
      reads this
    {
      forall id :: id in entries ==> id in server.users && entries[id] == server.users[id]
    }

    /** `get_user(user_id)` */
    method GetUser(id: string, server: Server) returns (r: Result<User, Error>)
      modifies this
      // A cached id is answered without a request and without touching the cache.
      ensures id in old(entries) ==>
        r == Ok(old(entries)[id]) && entries == old(entries) && requests == old(requests)
      // Any other id costs exactly one request ...
      ensures id !in old(entries) ==> requests == old(requests) + [id]
      // ... whose answer is cached and returned, or whose error leaves the cache as it was.
      ensures id !in old(entries) && id in server.users ==>
        r == Ok(server.users[id]) && entries == old(entries)[id := server.users[id]]
      ensures id !in old(entries) && id !in server.users ==>
        r == Err(UserNotFound(id)) && entries == old(entries)
      // After a successful call the id is cached; existing entries never change or disappear.
      ensures r.Ok? ==> id in entries && entries[id] == r.value
      ensures forall k :: k in old(entries) ==> k in entries && entries[k] == old(entries)[k]
      // A cache that agrees with the server keeps agreeing, and then answers as the server does.
      ensures old(Agrees(server)) ==> Agrees(server)
      ensures old(Agrees(server)) ==>
        r == if id in server.users then Ok(server.users[id]) else Err(UserNotFound(id))
    {
      if id in entries {
        return Ok(entries[id]);
      }
      requests := requests + [id];
      if id !in server.users {
        return Err(UserNotFound(id));
      }
      var user := server.users[id];
      entries := entries[id := user];
      return Ok(user);
    }
  }
}
