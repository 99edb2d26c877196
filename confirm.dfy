/** The confirmation gate of division/confirm.py: a registry of pending
    requests, one per key, each stamped with the clock reading at which it was
    made. A request waits up to 60 seconds for a matching `apply_confirm`.
    The waiting thread's loop is modelled one poll at a time, with the clock
    reading passed in. */
module Confirmation {
  import opened Common

  /** Who issued the command: a player with the permission level MCDR gives
      it, or the console (any other source). */
  datatype Source = PlayerSource(player: string, level: int) | ConsoleSource

  /** The registry key of a source: the player's name, or the configured
      default sender for every non-player source. */
  function KeyOf(source: Source, defaultSender: string): (k: string)
    ensures source.PlayerSource? ==> k == source.player
    ensures source.ConsoleSource? ==> k == defaultSender
  {
    match source
    case PlayerSource(p, _) => p
    case ConsoleSource => defaultSender
  }

  /** A callback is known here only by its identity. */
  type Callback = nat

  datatype Request = Request(time: int, callback: Callback)

  /** Why one pass of the waiting loop ended, or that it goes on waiting. */
  datatype PollResult = Missing | Superseded | Expired | Waiting

  /** The seconds a request stays valid. */
  const Timeout: int := 60

  type Registry = map<string, Request>

  /** Registering overwrites whatever was pending under the key. */
  function Register(req: Registry, key: string, t: int, cb: Callback): (r: Registry)
    ensures key in r && r[key] == Request(t, cb)
    ensures forall k :: k != key ==> (k in r <==> k in req) && (k in req ==> r[k] == req[k])
  {
    req[key := Request(t, cb)]
  }

  /** One pass of the waiting loop of the request stamped `t`, at clock
      reading `now`: it stops without touching the registry when its entry is
      gone or belongs to a newer request, purges its own entry once it is
      more than 60 seconds old, and otherwise waits. */
  function Poll(req: Registry, key: string, t: int, now: int): (r: (PollResult, Registry))
    ensures r.0 == Missing <==> key !in req
    ensures r.0 == Superseded <==> key in req && req[key].time != t
    ensures r.0 == Expired <==> key in req && req[key].time == t && t + Timeout < now
    ensures r.0 == Expired ==> r.1 == req - {key}
    ensures r.0 != Expired ==> r.1 == req
  {
    if key !in req then (Missing, req)
    else if req[key].time != t then (Superseded, req)
    else if req[key].time + Timeout < now then (Expired, req - {key})
    else (Waiting, req)
  }

  /** What `apply_confirm` did: the callback it fired, if any, and whether it
      reported nothing-to-confirm. */
  datatype Applied = Applied(fired: Option<Callback>, nothingToConfirm: bool, req: Registry)

  /** `apply_confirm` for `key`: pop the pending entry and fire its callback;
      with no entry, report nothing-to-confirm. A callback that raises is
      already popped and fired when nothing-to-confirm is reported. */
  function Apply(req: Registry, key: string, raises: bool): (r: Applied)
    ensures key in req ==> r.fired == Some(req[key].callback) && r.req == req - {key} && r.nothingToConfirm == raises
    ensures key !in req ==> r.fired == None && r.req == req && r.nothingToConfirm
  {
    if key in req then Applied(Some(req[key].callback), raises, req - {key})
    else Applied(None, true, req)
  }

  /** Confirming twice fires at most once: the second apply finds nothing. */
  lemma ApplyTwice(req: Registry, key: string, raises1: bool, raises2: bool)
    ensures var second := Apply(Apply(req, key, raises1).req, key, raises2);
      second.fired == None && second.nothingToConfirm
  {
  }

  /** A newer request under the same key supersedes the older one: the older
      request's waiting loop stops without touching the registry, and the
      apply fires the newer callback only. */
  lemma SupersededFiresLatest(req: Registry, key: string, t1: int, cb1: Callback, t2: int, cb2: Callback, now: int, raises: bool)
    requires t1 != t2
    ensures var r := Register(Register(req, key, t1, cb1), key, t2, cb2);
      && Poll(r, key, t1, now) == (Superseded, r)
      && Apply(r, key, raises).fired == Some(cb2)
  {
  }

  /** A request left unconfirmed for more than 60 seconds is purged by its own
      waiting loop, and a later apply finds nothing to confirm. */
  lemma ExpiredThenNothing(req: Registry, key: string, t: int, cb: Callback, now: int, raises: bool)
    requires t + Timeout < now
    ensures var r := Register(req, key, t, cb);
      && Poll(r, key, t, now).0 == Expired
      && Apply(Poll(r, key, t, now).1, key, raises) == Applied(None, true, Poll(r, key, t, now).1)
  {
  }

  /** Within the 60 seconds the request keeps waiting, and an apply then
      fires it. */
  lemma ConfirmInTime(req: Registry, key: string, t: int, cb: Callback, now: int, raises: bool)
    requires now <= t + Timeout
    ensures var r := Register(req, key, t, cb);
      && Poll(r, key, t, now) == (Waiting, r)
      && Apply(r, key, raises).fired == Some(cb)
  {
  }

  /** No step touches the entry of another key. */
  lemma OtherKeysUntouched(req: Registry, key: string, other: string, t: int, cb: Callback, now: int, raises: bool)
    requires other != key
    ensures other in Register(req, key, t, cb) <==> other in req
    ensures other in Poll(req, key, t, now).1 <==> other in req
    ensures other in Apply(req, key, raises).req <==> other in req
    ensures other in req ==>
      && Register(req, key, t, cb)[other] == req[other]
      && Poll(req, key, t, now).1[other] == req[other]
      && Apply(req, key, raises).req[other] == req[other]
  {
  }

  class Confirm {
    /** The pending requests, by key. */
    var req: Registry

    constructor ()
      ensures req == map[]
    {
      req := map[];
    }

    /** The registration of `req_confirm`, at clock reading `now`. */
    method ReqConfirm(source: Source, defaultSender: string, now: int, cb: Callback) returns (key: string)
      modifies this
      ensures key == KeyOf(source, defaultSender)
      ensures req == Register(old(req), key, now, cb)
    {
      if source.PlayerSource? {
        key := source.player;
      } else {
        key := defaultSender;
      }
      req := req[key := Request(now, cb)];
    }

    /** One pass of `req_confirm`'s waiting loop for the request stamped `t`. */
    method PollOnce(key: string, t: int, now: int) returns (r: PollResult)
      modifies this
      ensures (r, req) == Poll(old(req), key, t, now)
    {
      if key !in req {
        return Missing;
      }
      if req[key].time != t {
        return Superseded;
      }
      if req[key].time + Timeout < now {
        req := req - {key};
        return Expired;
      }
      r := Waiting;
    }

    /** `apply_confirm`; `raises` is whether the fired callback raises. */
    method ApplyConfirm(source: Source, defaultSender: string, raises: bool) returns (fired: Option<Callback>, nothingToConfirm: bool)
      modifies this
      ensures Applied(fired, nothingToConfirm, req) == Apply(old(req), KeyOf(source, defaultSender), raises)
    {
      var key := if source.PlayerSource? then source.player else defaultSender;
      if key in req {
        fired := Some(req[key].callback);
        req := req - {key};
        nothingToConfirm := raises;
      } else {
        fired := None;
        nothingToConfirm := true;
      }
    }
  }
}
