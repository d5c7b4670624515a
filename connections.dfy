/** Websocket connections and the registry (`ConnectionManager`) that tracks them by integer id. */
module Connections {

  /** A websocket, seen from the coordinator as the frames sent down it so far. */
  class Conn {
    var outbox: seq<string>

    constructor ()
      ensures outbox == []
    {
      outbox := [];
    }

    /** `websocket.send_text`. */
    method SendText(message: string)
      modifies this
      ensures outbox == old(outbox) + [message]
    {
      outbox := outbox + [message];
    }
  }

  /** A registry with one entry holds exactly that entry's connection. */
  lemma SingleConnection(id: int, ws: Conn)
    ensures map[id := ws].Values == {ws}
  {
    var m := map[id := ws];
    assert id in m && m[id] == ws;
    forall c | c in m.Values
      ensures c == ws
    {
      var k :| k in m && m[k] == c;
    }
  }

  /** One live connection per id. */
  class ConnectionManager {
    var active: map<int, Conn>

    constructor ()
      ensures active == map[]
    {
      active := map[];
    }

    /** Registers `ws` under `id`, replacing whatever was registered there. */
    method Connect(ws: Conn, id: int)
      modifies this
      ensures active == old(active)[id := ws]
    {
      active := active[id := ws];
    }

    /** `active_connections.pop(id)`, which callers only make for a registered id. */
    method Pop(id: int) returns (ws: Conn)
      requires id in active
      modifies this
      ensures ws == old(active[id]) && active == old(active) - {id}
    {
      ws := active[id];
      active := active - {id};
    }

    /** Removes the entry for `id`; the connection given is not consulted. */
    method Disconnect(ws: Conn, id: int)
      modifies this
      ensures active == old(active) - {id}
    {
      if id in active {
        active := active - {id};
      }
    }
  }
}
