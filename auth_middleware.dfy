/** The request guards of middleware/auth.js: reading the bearer token,
    authenticating it against the user store (strictly, or optionally),
    gating on the subscription level and on ownership of a resource, and
    the in-memory limiter on authentication attempts per e-mail address.
    Token signatures and the database are not modelled: what the token
    verifier and the user lookup answer are parameters. */
module AuthMiddleware {
  import opened Common
  import opened Ordering

  // ---------------------------------------------------------------------
  // String.prototype.split with a one-character separator

  /** String.prototype.indexOf for one character, with the length of the
      text standing for -1: the position of the first occurrence of c. */
  function IndexOf(s: string, c: char): (i: nat)
    ensures i <= |s|
    ensures i < |s| ==> s[i] == c
    ensures forall k :: 0 <= k < i ==> s[k] != c
  {
    if s == [] then 0
    else if s[0] == c then 0
    else IndexOf(s[1..], c) + 1
  }

  /** The fields between the separators, empty ones included; a string
      without the separator is one field. */
  function Split(s: string, sep: char): (parts: seq<string>)
    ensures |parts| >= 1
    ensures forall i :: 0 <= i < |parts| ==> sep !in parts[i]
    ensures |parts| == 1 <==> IndexOf(s, sep) == |s|
    decreases |s|
  {
    var i := IndexOf(s, sep);
    if i == |s| then [s]
    else [s[..i]] + Split(s[i + 1..], sep)
  }

  /** The separator occurs in the text exactly when indexOf finds it. */
  lemma Found(s: string, c: char)
    ensures c in s <==> IndexOf(s, c) < |s|
  {
    if c in s {
      var k :| 0 <= k < |s| && s[k] == c;
      assert !(k < IndexOf(s, c));
    }
  }

  /** Array.prototype.join: the fields with the separator between them. */
  function Join(parts: seq<string>, sep: char): string
    requires |parts| >= 1
  {
    if |parts| == 1 then parts[0] else parts[0] + [sep] + Join(parts[1..], sep)
  }

  /** Splitting loses nothing: joining the fields gives the text back. */
  lemma {:induction false} SplitJoin(s: string, sep: char)
    ensures Join(Split(s, sep), sep) == s
    decreases |s|
  {
    var i := IndexOf(s, sep);
    if i < |s| {
      SplitStep(s, sep);
      JoinCons(s[..i], Split(s[i + 1..], sep), sep);
      SplitJoin(s[i + 1..], sep);
      Rejoin(s, i, sep);
    }
  }

  /** One step of the split: the text before the first separator, then the
      fields of the rest. */
  lemma SplitStep(s: string, sep: char)
    requires IndexOf(s, sep) < |s|
    ensures var i := IndexOf(s, sep); Split(s, sep) == [s[..i]] + Split(s[i + 1..], sep)
  {
  }

  /** Cutting a text at a separator and putting it back together. */
  lemma Rejoin(s: string, i: nat, sep: char)
    requires i < |s| && s[i] == sep
    ensures s[..i] + [sep] + s[i + 1..] == s
  {
    assert s[..i] + [sep] + s[i + 1..] == s[..i] + s[i..];
  }

  /** Joining a field in front of other fields puts a separator between. */
  lemma JoinCons(a: string, rest: seq<string>, sep: char)
    requires |rest| >= 1
    ensures Join([a] + rest, sep) == a + [sep] + Join(rest, sep)
  {
    assert ([a] + rest)[1..] == rest;
  }

  /** A field free of the separator, then the separator: splitting yields
      the field, then the fields of the rest. */
  lemma SplitAfterField(a: string, sep: char, rest: string)
    requires sep !in a
    ensures Split(a + [sep] + rest, sep) == [a] + Split(rest, sep)
  {
    var s := a + [sep] + rest;
    assert s[|a|] == sep;
    forall k | 0 <= k < |a| ensures s[k] != sep {
      assert s[k] == a[k];
    }
    var i := IndexOf(s, sep);
    assert i == |a|;
    assert s[..i] == a;
    assert s[i + 1..] == rest;
  }

  /** Joining fields that hold no separator and splitting again gives the
      same fields. */
  lemma {:induction false} JoinSplit(parts: seq<string>, sep: char)
    requires |parts| >= 1
    requires forall i :: 0 <= i < |parts| ==> sep !in parts[i]
    ensures Split(Join(parts, sep), sep) == parts
  {
    if |parts| > 1 {
      SplitAfterField(parts[0], sep, Join(parts[1..], sep));
      JoinSplit(parts[1..], sep);
      assert parts == [parts[0]] + parts[1..];
    }
  }

  // ---------------------------------------------------------------------
  // The bearer token

  /** `authHeader && authHeader.split(' ')[1]`, then `!token`: the second
      space-separated field of the Authorization header, when there is one
      and it is not empty. */
  function ExtractToken(header: Option<string>): (token: Option<string>)
    ensures token.Some? ==> token.value != "" && ' ' !in token.value
  {
    if !Present(header) then None
    else
      var parts := Split(header.value, ' ');
      if |parts| >= 2 && parts[1] != "" then Some(parts[1]) else None
  }

  /** The first field of a split is the text up to the first separator. */
  lemma SplitFirst(s: string, sep: char)
    requires IndexOf(s, sep) < |s|
    ensures Split(s, sep)[0] == s[..IndexOf(s, sep)]
    ensures Split(s, sep)[1..] == Split(s[IndexOf(s, sep) + 1..], sep)
  {
    var i := IndexOf(s, sep);
    var rest := Split(s[i + 1..], sep);
    SplitStep(s, sep);
    assert ([s[..i]] + rest)[1..] == rest;
  }

  /** The field a split starts with ends at the end of the text or at a
      separator. */
  lemma FirstFieldBounds(s: string, sep: char)
    ensures var f := Split(s, sep)[0];
      |f| <= |s| && f == s[..|f|] && (|f| == |s| || s[|f|] == sep)
  {
    if IndexOf(s, sep) < |s| {
      SplitFirst(s, sep);
    } else {
      assert Split(s, sep) == [s];
    }
  }

  /** The token sits right after position i of the header, as the whole run
      of characters up to the next space or the end. */
  predicate TokenSitsAt(h: string, i: int, token: string) {
    && 0 <= i
    && i + 1 + |token| <= |h|
    && token == h[i + 1..i + 1 + |token|]
    && (i + 1 + |token| == |h| || h[i + 1 + |token|] == ' ')
  }

  /** Where the token sits in the header: a token is found exactly when the
      header has a space followed by a character other than a space, and it
      is then the run of characters after the first space up to the next
      space or the end.  A header "Bearer  abc", with two spaces, has no
      token. */
  lemma TokenAfterFirstSpace(h: string)
    ensures ' ' !in h ==> ExtractToken(Some(h)).None?
    ensures ' ' in h ==>
      var i := IndexOf(h, ' ');
      var t := ExtractToken(Some(h));
      && (t.Some? <==> i + 1 < |h| && h[i + 1] != ' ')
      && (t.Some? ==> TokenSitsAt(h, i, t.value))
  {
    Found(h, ' ');
    if ' ' in h {
      var i := IndexOf(h, ' ');
      var tail := h[i + 1..];
      var f := Split(tail, ' ')[0];
      TokenIsSecondField(h, i, f);
      FirstFieldBounds(tail, ' ');
      FieldAt(h, i, f, ExtractToken(Some(h)));
    } else {
      assert |Split(h, ' ')| == 1;
    }
  }

  /** With a space in the header, the token is the first field after the
      first space, when that field is not empty. */
  lemma TokenIsSecondField(h: string, i: nat, f: string)
    requires i == IndexOf(h, ' ') < |h|
    requires f == Split(h[i + 1..], ' ')[0]
    ensures ExtractToken(Some(h)) == if f == "" then None else Some(f)
  {
    SplitFirst(h, ' ');
    var parts := Split(h, ' ');
    assert |parts| >= 2;
    assert parts[1] == parts[1..][0];
  }

  /** A field that starts right after position i and runs to the end or to
      a space: it is empty exactly when no non-space character follows i,
      and otherwise it is the stretch of h that follows i; t holds it when
      it is not empty. */
  lemma FieldAt(h: string, i: nat, f: string, t: Option<string>)
    requires i < |h|
    requires var tail := h[i + 1..]; |f| <= |tail| && f == tail[..|f|] && (|f| == |tail| || tail[|f|] == ' ')
    requires ' ' !in f
    requires t == if f == "" then None else Some(f)
    ensures t.Some? <==> i + 1 < |h| && h[i + 1] != ' '
    ensures t.Some? ==> TokenSitsAt(h, i, t.value)
  {
    var tail := h[i + 1..];
    if f != "" {
      assert f[0] == tail[0] == h[i + 1];
    } else if i + 1 < |h| {
      assert tail[0] == h[i + 1];
    }
    assert tail[..|f|] == h[i + 1..i + 1 + |f|];
    if i + 1 + |f| < |h| {
      assert tail[|f|] == h[i + 1 + |f|];
    }
  }

  /** The usual header: a scheme word, one space, the token. */
  lemma BearerHeader(scheme: string, t: string)
    requires ' ' !in scheme && ' ' !in t && t != ""
    ensures ExtractToken(Some(scheme + " " + t)) == Some(t)
  {
    JoinSplit([scheme, t], ' ');
    assert Join([scheme, t], ' ') == scheme + " " + t by {
      assert [scheme, t][1..] == [t];
    }
  }

  // ---------------------------------------------------------------------
  // authenticateToken and optionalAuth

  /** A stored user as the guards see it; req.user carries the same five
      fields. */
  datatype User = User(userId: string, email: string, name: string, subscription: Option<string>, verified: bool)

  /** What jwt.verify does with a token: it decodes to a user id, or throws
      an error named JsonWebTokenError or TokenExpiredError, or throws
      something else (NotBeforeError, for one). */
  datatype Verification = Decoded(userId: string) | InvalidToken | ExpiredToken | OtherFailure

  /** What User.findById answers: a user, nothing, or an exception. */
  datatype Lookup = Found(user: User) | Missing | Failed

  /** The outcome of a guard: next() with req.user as it then is, or an
      error reply. */
  datatype Outcome = Next(user: Option<User>) | Reject(status: int, message: string)

  /** authenticateToken. */
  function Authenticate(header: Option<string>, verify: string -> Verification, find: string -> Lookup): Outcome {
    var token := ExtractToken(header);
    if token.None? then Reject(401, "No token provided")
    else
      match verify(token.value)
      case InvalidToken => Reject(401, "Invalid token")
      case ExpiredToken => Reject(401, "Token expired")
      case OtherFailure => Reject(500, "Authentication failed")
      case Decoded(id) =>
        match find(id)
        case Failed => Reject(500, "Authentication failed")
        case Missing => Reject(401, "User not found")
        case Found(u) =>
          if !u.verified then Reject(401, "Please verify your email first")
          else Next(Some(u))
  }

  /** A request passes exactly when it carries a token that decodes to the
      id of an existing, verified user, and req.user is then that user.
      Every refusal is a 401 except for unexpected exceptions, which are
      500s. */
  lemma AuthenticateSpec(header: Option<string>, verify: string -> Verification, find: string -> Lookup)
    ensures var o := Authenticate(header, verify, find);
      var t := ExtractToken(header);
      && (o.Next? <==>
            t.Some? && verify(t.value).Decoded? && find(verify(t.value).userId).Found?
            && find(verify(t.value).userId).user.verified)
      && (o.Next? ==> o.user == Some(find(verify(t.value).userId).user))
      && (o.Reject? ==> o.status == 401 || o.status == 500)
      && (o.Reject? && o.status == 500 <==>
            t.Some? && (verify(t.value).OtherFailure? || (verify(t.value).Decoded? && find(verify(t.value).userId).Failed?)))
      && (t.None? ==> o == Reject(401, "No token provided"))
  {
  }

  /** optionalAuth: never refuses; sets req.user for a token of an existing,
      verified user and otherwise leaves it unset. */
  function OptionalAuth(header: Option<string>, verify: string -> Verification, find: string -> Lookup): Outcome {
    var token := ExtractToken(header);
    if token.None? then Next(None)
    else
      match verify(token.value)
      case Decoded(id) =>
        (match find(id)
         case Found(u) => if u.verified then Next(Some(u)) else Next(None)
         case _ => Next(None))
      case _ => Next(None)
  }

  /** The optional guard lets every request through, and attaches a user
      exactly when the strict guard would pass the request, the same user. */
  lemma OptionalAgreesWithStrict(header: Option<string>, verify: string -> Verification, find: string -> Lookup)
    ensures OptionalAuth(header, verify, find).Next?
    ensures Authenticate(header, verify, find).Next? ==>
      OptionalAuth(header, verify, find) == Authenticate(header, verify, find)
    ensures Authenticate(header, verify, find).Reject? ==> OptionalAuth(header, verify, find) == Next(None)
  {
  }

  // ---------------------------------------------------------------------
  // requireSubscription

  /** `subscriptionHierarchy[name] || 0`: free 0, premium 1, pro 2; an
      unknown or missing name counts as 0. */
  function Level(name: Option<string>): (l: nat)
    ensures l <= 2
  {
    if name == Some("premium") then 1
    else if name == Some("pro") then 2
    else 0
  }

  /** requireSubscription(required), applied after authentication. */
  function RequireSubscription(user: Option<User>, required: string): Outcome {
    if user.None? then Reject(401, "Authentication required")
    else if Level(user.value.subscription) < Level(Some(required)) then
      Reject(403, "This feature requires " + required + " subscription")
    else Next(user)
  }

  /** An authenticated user passes exactly when their plan ranks at least
      as high as the required one: a pro user passes every gate, every user
      passes a free (or unknown) gate, and passing a gate means passing every
      lower one.  A passing request keeps its user. */
  lemma SubscriptionGate(user: Option<User>, required: string, lower: string)
    ensures RequireSubscription(user, required).Next? <==>
      user.Some? && Level(user.value.subscription) >= Level(Some(required))
    ensures RequireSubscription(user, required).Next? ==> RequireSubscription(user, required).user == user
    ensures user.None? ==> RequireSubscription(user, required).status == 401
    ensures user.Some? && user.value.subscription == Some("pro") ==> RequireSubscription(user, required).Next?
    ensures user.Some? && Level(Some(required)) == 0 ==> RequireSubscription(user, required).Next?
    ensures RequireSubscription(user, required).Next? && Level(Some(lower)) <= Level(Some(required)) ==>
      RequireSubscription(user, lower).Next?
  {
  }

  // ---------------------------------------------------------------------
  // requireOwnership

  /** `a || b || c`: the first truthy value, else the last one. */
  function FirstTruthy(a: Option<string>, b: Option<string>, c: Option<string>): Option<string> {
    if Present(a) then a else if Present(b) then b else c
  }

  /** requireOwnership(field), given the field's value in the body, the
      route parameters and the query string. */
  function RequireOwnership(user: Option<User>, body: Option<string>, params: Option<string>, query: Option<string>): Outcome {
    if user.None? then Reject(401, "Authentication required")
    else
      var owner := FirstTruthy(body, params, query);
      if !Present(owner) then Reject(400, "Resource user ID not provided")
      else if user.value.userId != owner.value then Reject(403, "You can only access your own resources")
      else Next(user)
  }

  /** The body takes precedence over the route and the route over the
      query: the request passes exactly when the first non-empty of the
      three names the authenticated user; 400 when all are empty, 403 when
      the first non-empty names someone else. */
  lemma OwnershipSpec(user: Option<User>, body: Option<string>, params: Option<string>, query: Option<string>)
    ensures var o := RequireOwnership(user, body, params, query);
      && (user.None? ==> o == Reject(401, "Authentication required"))
      && (user.Some? && !Present(body) && !Present(params) && !Present(query) ==> o.Reject? && o.status == 400)
      && (user.Some? && Present(body) ==> (o.Next? <==> body.value == user.value.userId))
      && (user.Some? && !Present(body) && Present(params) ==> (o.Next? <==> params.value == user.value.userId))
      && (user.Some? && !Present(body) && !Present(params) && Present(query) ==>
            (o.Next? <==> query.value == user.value.userId))
      && (o.Reject? ==> o.status in {400, 401, 403})
      && (o.Next? ==> o.user == user)
  {
  }

  // ---------------------------------------------------------------------
  // authRateLimit

  /** The window, fifteen minutes in milliseconds, and the number of
      attempts allowed in it. */
  const WindowMs: int := 15 * 60 * 1000
  const MaxAttempts: nat := 5

  /** The attempt times that are still inside the window at `now`. */
  function Recent(now: int): int -> bool {
    (t: int) => now - t < WindowMs
  }

  function InWindow(times: seq<int>, now: int): (r: seq<int>)
    ensures |r| <= |times|
    ensures forall t :: t in r <==> t in times && now - t < WindowMs
    ensures NonDecreasing(times) ==> NonDecreasing(r)
  {
    FilterNonDecreasing(times, Recent(now));
    Filter(times, Recent(now))
  }

  /** The times in the window keep the order they were recorded in: the
      k-th of them is the one recorded at position idx[k], and the
      positions increase. */
  lemma InWindowInOrder(times: seq<int>, now: int) returns (idx: seq<int>)
    ensures var r := InWindow(times, now);
      && |idx| == |r|
      && (forall k :: 0 <= k < |idx| ==> 0 <= idx[k] < |times| && times[idx[k]] == r[k])
      && (forall k, l :: 0 <= k < l < |idx| ==> idx[k] < idx[l])
  {
    idx := FilterIndices(times, Recent(now));
  }

  function Differs(target: int): int -> bool {
    (t: int) => t != target
  }

  /** The attempt times are kept per lower-cased address. */
  class RateLimiter {
    var attempts: map<string, seq<int>>

    /** No list ever holds more attempts than the limit. */
    ghost predicate Valid()
      reads this
    {
      forall k :: k in attempts ==> |attempts[k]| <= MaxAttempts
    }

    constructor ()
      ensures attempts == map[] && Valid()
    {
      attempts := map[];
    }

    /** One request through the limiter.  Without an address it passes and
        nothing is recorded.  Otherwise, counting the address's attempts
        still inside the window: with five or more the request is refused
        with 429 and the stored list is left as it was (stale times are not
        dropped); with fewer the request passes, the stored list becomes the
        recent times plus this one, and the oldest of them is returned as the
        time that the request's cleanup will remove. */
    method Attempt(email: Option<string>, now: int) returns (passed: bool, cleanupTarget: Option<int>)
      requires Valid()
      modifies this
      ensures Valid()
      ensures !Present(email) ==> passed && cleanupTarget.None? && attempts == old(attempts)
      ensures Present(email) ==>
        var key := Lower(email.value);
        var stored := if key in old(attempts) then old(attempts)[key] else [];
        var valid := InWindow(stored, now);
        && (|valid| >= MaxAttempts ==> !passed && cleanupTarget.None? && attempts == old(attempts))
        && (|valid| < MaxAttempts ==>
              passed && attempts == old(attempts)[key := valid + [now]]
              && cleanupTarget == Some((valid + [now])[0]))
    {
      if !Present(email) {
        return true, None;
      }
      var key := Lower(email.value);
      if key !in attempts {
        attempts := attempts[key := []];
      }
      var valid := InWindow(attempts[key], now);
      if |valid| >= MaxAttempts {
        return false, None;
      }
      valid := valid + [now];
      attempts := attempts[key := valid];
      passed, cleanupTarget := true, Some(valid[0]);
    }

    /** req.cleanupRateLimit: drops every recorded time equal to the target
        from the address's list, if the address is still recorded. */
    method Cleanup(key: string, target: int)
      requires Valid()
      modifies this
      ensures Valid()
      ensures key in old(attempts) ==> attempts == old(attempts)[key := Filter(old(attempts)[key], Differs(target))]
      ensures key !in old(attempts) ==> attempts == old(attempts)
    {
      if key in attempts {
        attempts := attempts[key := Filter(attempts[key], Differs(target))];
      }
    }

    /** A request that passes, followed by its cleanup.  The cleanup drops
        the oldest attempt still in the window, not the request's own: with
        earlier attempts in the window the request stays recorded and the
        oldest goes; with none, the request's own time is the one dropped. */
    method AttemptThenCleanup(email: string, now: int) returns (passed: bool)
      requires Valid() && email != ""
      modifies this
      ensures Valid()
      ensures var key := Lower(email);
        var stored := if key in old(attempts) then old(attempts)[key] else [];
        var valid := InWindow(stored, now);
        && (passed <==> |valid| < MaxAttempts)
        && (passed && valid != [] && valid[0] != now ==>
              key in attempts && now in attempts[key] && valid[0] !in attempts[key])
        && (passed && valid == [] ==> key in attempts && attempts[key] == [])
    {
      var target;
      passed, target := Attempt(Some(email), now);
      if passed {
        Cleanup(Lower(email), target.value);
      }
    }
  }

  /** One address's attempts in arrival order, as the limiter handles them
      when no cleanup runs: the times it accepted and the list it keeps. */
  datatype Trace = Trace(accepted: seq<int>, stored: seq<int>)

  function Replay(requests: seq<int>): (r: Trace)
    ensures |r.accepted| <= |requests|
  {
    if requests == [] then Trace([], [])
    else
      var prev := Replay(requests[..|requests| - 1]);
      var now := requests[|requests| - 1];
      var valid := InWindow(prev.stored, now);
      if |valid| >= MaxAttempts then prev else Trace(prev.accepted + [now], valid + [now])
  }

  /** What the stored list is, given the accepted times: those of them
      inside the window of the last accepted time, which is no later than
      the last request. */
  ghost predicate StoredIsRecent(requests: seq<int>, r: Trace) {
    && |r.stored| <= MaxAttempts
    && (r.accepted == [] ==> r.stored == [])
    && (r.accepted != [] ==>
          && requests != []
          && r.accepted[|r.accepted| - 1] <= requests[|requests| - 1]
          && r.stored == InWindow(r.accepted, r.accepted[|r.accepted| - 1]))
  }

  lemma {:induction false} ReplayStoredIsRecent(requests: seq<int>)
    requires NonDecreasing(requests)
    ensures StoredIsRecent(requests, Replay(requests))
  {
    if requests != [] {
      var init := requests[..|requests| - 1];
      assert NonDecreasing(init);
      ReplayStoredIsRecent(init);
      assert init != [] ==> init[|init| - 1] <= requests[|requests| - 1];
      RecentStep(init, Replay(init), requests, Replay(requests));
    }
  }

  /** One more request keeps the stored list the recent accepted times. */
  lemma RecentStep(init: seq<int>, prev: Trace, requests: seq<int>, next: Trace)
    requires StoredIsRecent(init, prev)
    requires requests != [] && (init != [] ==> init[|init| - 1] <= requests[|requests| - 1])
    requires var now := requests[|requests| - 1]; var valid := InWindow(prev.stored, now);
      next == if |valid| >= MaxAttempts then prev else Trace(prev.accepted + [now], valid + [now])
    ensures StoredIsRecent(requests, next)
  {
    var now := requests[|requests| - 1];
    var valid := InWindow(prev.stored, now);
    if |valid| < MaxAttempts {
      assert prev.accepted != [] ==> prev.accepted[|prev.accepted| - 1] <= now;
      WindowOfStored(prev, now);
      AcceptedWindow(prev.accepted, valid, now);
      var accepted := prev.accepted + [now];
      assert accepted[|accepted| - 1] == now;
    }
  }

  /** Accepting a request at `now` stores the accepted times still in its
      window. */
  lemma AcceptedWindow(accepted: seq<int>, valid: seq<int>, now: int)
    requires valid == InWindow(accepted, now) && |valid| < MaxAttempts
    ensures |valid + [now]| <= MaxAttempts
    ensures valid + [now] == InWindow(accepted + [now], now)
  {
    FilterAppend(accepted, now, Recent(now));
    assert Recent(now)(now);
  }

  /** The limit the middleware promises: when requests for one address
      arrive in time order and no cleanup runs, at no request's time have
      more than five attempts been let through in the fifteen minutes up to
      it, the request itself included. */
  lemma AtMostFivePerWindow(requests: seq<int>)
    requires NonDecreasing(requests) && requests != []
    ensures |InWindow(Replay(requests).accepted, requests[|requests| - 1])| <= MaxAttempts
  {
    var r := Replay(requests);
    var now := requests[|requests| - 1];
    ReplayStoredIsRecent(requests);
    if r.accepted != [] {
      var last := r.accepted[|r.accepted| - 1];
      FilterImplied(r.accepted, Recent(last), Recent(now));
    }
  }

  /** And a request is refused only when five attempts already passed in the
      window before it. */
  lemma RefusedOnlyWhenFull(requests: seq<int>)
    requires NonDecreasing(requests) && requests != []
    ensures var init := requests[..|requests| - 1];
      var now := requests[|requests| - 1];
      Replay(requests) == Replay(init) <==> |InWindow(Replay(init).accepted, now)| >= MaxAttempts
  {
    var init := requests[..|requests| - 1];
    var now := requests[|requests| - 1];
    assert NonDecreasing(init);
    ReplayStoredIsRecent(init);
    var prev := Replay(init);
    assert prev.accepted != [] ==> prev.accepted[|prev.accepted| - 1] <= now;
    WindowOfStored(prev, now);
    assert Replay(requests) == if |InWindow(prev.stored, now)| >= MaxAttempts then prev
      else Trace(prev.accepted + [now], InWindow(prev.stored, now) + [now]);
  }

  /** Once time has moved on from the last accepted attempt, the stored
      list and the accepted times have the same window. */
  lemma WindowOfStored(r: Trace, now: int)
    requires r.accepted == [] ==> r.stored == []
    requires r.accepted != [] ==>
      && r.accepted[|r.accepted| - 1] <= now
      && r.stored == InWindow(r.accepted, r.accepted[|r.accepted| - 1])
    ensures InWindow(r.stored, now) == InWindow(r.accepted, now)
  {
    if r.accepted != [] {
      var last := r.accepted[|r.accepted| - 1];
      FilterImplied(r.accepted, Recent(last), Recent(now));
    }
  }
}
