/**
 The decision about an Access-Request (check_expiration, rad_check_password, rad_postauth and
 rad_authenticate in auth.c).  Modules, the clock, external programs and password schemes are
 arbitrary functions.
 */
module Authenticate {
  import opened Octets

  const ACCESS_REQUEST := 1
  const ACCEPT := 2
  const REJECT := 3
  const CHALLENGE := 11

  const PASSWORD := 2
  const CHAP_PASSWORD := 3
  const REPLY_MESSAGE := 18
  const SESSION_TIMEOUT := 27
  const PORT_LIMIT := 62
  const EXEC_PROGRAM_WAIT := 503
  const AUTH_TYPE := 1000
  const CRYPT_PASSWORD := 1006
  const EXPIRATION := 1010
  const AUTZ_TYPE := 1011
  const SESSION_TYPE := 1013
  const POST_AUTH_TYPE := 1014
  const SIMULTANEOUS_USE := 1034
  const LOGIN_TIME := 1042
  const PROXY_TO_REALM := 1048

  const TYPE_LOCAL := 0
  const TYPE_CRYPT := 3
  const TYPE_REJECT := 4
  const TYPE_ACCEPT := 254

  type int32 = x: int | -0x8000_0000 <= x < 0x8000_0000

  datatype Rcode = Reject | Fail | Ok | Handled | Invalid | UserLock | NotFound | Noop | Updated

  datatype Item = Item(attribute: int, value: word, text: string)

  /** The parts of a request that the decision reads and writes. */
  datatype State = State(config: seq<Item>, reply: seq<Item>, packet: seq<Item>, code: int, named: bool,
                         password: Option<Item>, proxied: bool)

  /** A module's answer, and what it made of the request. */
  datatype Answer = Answer(rcode: Rcode, state: State)

  /** The outcome of an external program or of the count of sessions. */
  datatype Exit = Exit(status: int, state: State)

  datatype Modules = Modules(
    authorize: (nat, word, State) -> Answer,
    authenticate: (int, State) -> Answer,
    postAuth: (word, State) -> Answer,
    simultaneous: (word, State, word) -> Exit,
    execWait: (string, State) -> Exit,
    crypt: (string, string) -> int,
    chap: (Item, Item) -> bool,
    timeLeft: string -> int32,
    edited: seq<Item> -> seq<Item>,
    now: nat,
    rejectType: Option<word>)

  function Find(items: seq<Item>, attribute: int): (r: Option<Item>)
    ensures r.Some? ==> r.value in items && r.value.attribute == attribute
    ensures r.None? <==> forall i :: i in items ==> i.attribute != attribute
  {
    if items == [] then None
    else if items[0].attribute == attribute then Some(items[0])
    else Find(items[1..], attribute)
  }

  function ValueOr(o: Option<Item>, other: word): (n: word)
  {
    if o.Some? then o.value.value else other
  }

  function Without(items: seq<Item>, attribute: int): (r: seq<Item>)
  {
    if items == [] then []
    else if items[0].attribute == attribute then Without(items[1..], attribute)
    else [items[0]] + Without(items[1..], attribute)
  }

  // ---------------------------------------------------------------- expiry

  predicate Expired(now: nat, config: seq<Item>)
  {
    exists i :: i in config && i.attribute == EXPIRATION && i.value < now
  }

  const EXPIRED_REPLY := [Item(REPLY_MESSAGE, 0, "Password Has Expired")]

  // ---------------------------------------------------------------- passwords

  /** Some Auth-Type says reject. */
  predicate Rejecting(config: seq<Item>)
  {
    exists i :: i in config && i.attribute == AUTH_TYPE && SignedWord(i.value) == TYPE_REJECT
  }

  /** The last Auth-Type, -1 if there is none. */
  function AuthType(config: seq<Item>): (t: int)
  {
    if config == [] then -1
    else if config[|config| - 1].attribute == AUTH_TYPE then SignedWord(config[|config| - 1].value)
    else AuthType(config[..|config| - 1])
  }

  /** What a password check comes to: accepted, refused, or nothing to reply. */
  datatype Checked = Checked(result: int, state: State)

  /** The password stored for the user. */
  function Stored(config: seq<Item>): (p: Option<Item>)
  {
    var crypt := Find(config, CRYPT_PASSWORD);
    if crypt.Some? then crypt else Find(config, PASSWORD)
  }

  /** How the password is to be checked; negative if nothing says so. */
  function Method(config: seq<Item>): (t: int)
  {
    var t := AuthType(config);
    var t' := if t == -1 && Find(config, CRYPT_PASSWORD).Some? then TYPE_CRYPT else t;
    if t' < 0 && Stored(config).Some? then TYPE_LOCAL else t'
  }

  /** The given password matches the stored one in the local and the crypt scheme. */
  predicate Matches(m: Modules, how: int, given: Option<Item>, stored: Option<Item>)
  {
    && given.Some? && stored.Some?
    && (if how == TYPE_CRYPT then m.crypt(given.value.text, stored.value.text) !in {-1, 1}
        else if given.value.attribute == PASSWORD then stored.value.text == given.value.text
        else given.value.attribute == CHAP_PASSWORD && m.chap(given.value, stored.value))
  }

  function ModuleResult(r: Rcode): (n: int)
  {
    if r == Ok then 0 else if r == Handled then 1 else -1
  }

  function CheckedPassword(m: Modules, s: State): (c: Checked)
  {
    if Rejecting(s.config) then Checked(-2, s)
    else if AuthType(s.config) == TYPE_ACCEPT || s.proxied then Checked(0, s)
    else
      var how := Method(s.config);
      if how < 0 then Checked(-2, s)
      else if how == TYPE_CRYPT || how == TYPE_LOCAL then
        Checked(if Matches(m, how, s.password, Stored(s.config)) then 0 else -1, s)
      else
        var a := m.authenticate(how, s);
        Checked(ModuleResult(a.rcode), a.state)
  }

  // ---------------------------------------------------------------- the other gates

  const TOO_MANY := "You are already logged in - access denied"
  const OUT_OF_HOURS := "You are calling outside your allowed timespan"
  const EXEC_FAILED := "Access denied (external check failed)."

  function Refused(s: State, message: string): (r: State)
  {
    s.(code := REJECT, reply := [Item(REPLY_MESSAGE, 0, message)])
  }

  /** Too many sessions are refused, unless it is one more line of a multilink call within the port limit. */
  function Counted(m: Modules, named: bool, s: State): (c: Checked)
  {
    var limit := Find(s.config, SIMULTANEOUS_USE);
    if limit.None? || !named then Checked(0, s)
    else
      var x := m.simultaneous(ValueOr(Find(s.config, SESSION_TYPE), 0), s, limit.value.value);
      if x.status == 0 || (x.status == 2 && ValueOr(Find(x.state.reply, PORT_LIMIT), 0) > limit.value.value)
      then Checked(0, x.state) else Checked(-1, Refused(x.state, TOO_MANY))
  }

  /** Called at a time of day that leaves less than a minute. */
  predicate OutOfHours(m: Modules, s: State)
  {
    var hours := Find(s.config, LOGIN_TIME);
    hours.Some? && m.timeLeft(hours.value.text) < 60
  }

  /** The session is cut to the time that is left. */
  function Limited(reply: seq<Item>, left: word): (r: seq<Item>)
  {
    if reply == [] then [Item(SESSION_TIMEOUT, left, "")]
    else if reply[0].attribute == SESSION_TIMEOUT then
      [if reply[0].value > left then reply[0].(value := left) else reply[0]] + reply[1..]
    else [reply[0]] + Limited(reply[1..], left)
  }

  function Timed(m: Modules, s: State): (r: State)
    requires !OutOfHours(m, s)
  {
    var hours := Find(s.config, LOGIN_TIME);
    if hours.None? then s else s.(reply := Limited(s.reply, m.timeLeft(hours.value.text)))
  }

  predicate PostAuthRejects(r: Rcode)
  {
    r == Fail || r == Reject || r == UserLock || r == Invalid
  }

  function PostAuthed(m: Modules, s: State): (r: State)
  {
    var a := m.postAuth(ValueOr(Find(s.config, POST_AUTH_TYPE), 0), s);
    if PostAuthRejects(a.rcode) then a.state.(code := REJECT) else a.state
  }

  // ---------------------------------------------------------------- the whole decision

  /** A proxied request is decided by the home server's reply as far as that goes. */
  datatype Proxy = Proxy(packetCode: int, replyCode: Option<int>)

  predicate FromHome(p: Proxy)
  {
    p.packetCode == ACCESS_REQUEST && p.replyCode.Some?
  }

  /** The password the request carries: User-Password before CHAP-Password. */
  function Prepared(s: State): (r: State)
  {
    var p := if s.password.Some? then s.password else Find(s.packet, PASSWORD);
    s.(password := if p.Some? then p else Find(s.packet, CHAP_PASSWORD))
  }

  /** The request as authorisation gets it; an accept of the home server is on record. */
  function Entering(p: Proxy, s: State): (r: State)
  {
    Prepared(if FromHome(p) then s.(config := s.config + [Item(AUTH_TYPE, TYPE_ACCEPT, "")]) else s)
  }

  predicate Continues(r: Rcode)
  {
    r == NotFound || r == Noop || r == Ok || r == Updated
  }

  function Barred(a: Answer): (s: State)
  {
    if a.rcode != Fail && a.rcode != Handled then a.state.(code := REJECT) else a.state
  }

  datatype Authorization = Authorization(state: State, calls: nat, ok: bool)

  /** Authorisation, once more if it asks for another type, but not a third time. */
  function Authorized(m: Modules, s: State): (r: Authorization)
  {
    var a := m.authorize(0, 0, s);
    if !Continues(a.rcode) then Authorization(Barred(a), 1, false)
    else
      var again := Find(a.state.config, AUTZ_TYPE);
      if again.None? then Authorization(a.state, 1, true)
      else
        var b := m.authorize(1, again.value.value, a.state);
        if !Continues(b.rcode) then Authorization(Barred(b), 2, false) else Authorization(b.state, 2, true)
  }

  predicate SentOn(s: State)
  {
    !s.proxied && Find(s.config, PROXY_TO_REALM).Some?
  }

  function Validated(m: Modules, s: State): (c: Checked)
  {
    if Expired(m.now, s.config) then Checked(-1, s.(reply := EXPIRED_REPLY)) else CheckedPassword(m, s)
  }

  function Gated(m: Modules, named: bool, c: Checked): (r: Checked)
  {
    if c.result < 0 then Checked(c.result, c.state.(code := REJECT))
    else
      var u := Counted(m, named, c.state);
      if u.result < 0 then u
      else if OutOfHours(m, u.state) then Checked(-1, Refused(u.state, OUT_OF_HOURS))
      else Checked(0, Timed(m, u.state))
  }

  /** A refused user: the post-authentication step is told so, if the dictionary has a name for it. */
  function RejectedEnd(m: Modules, s: State): (r: State)
  {
    if m.rejectType.None? then s
    else PostAuthed(m, s.(config := Without(s.config, POST_AUTH_TYPE) + [Item(POST_AUTH_TYPE, m.rejectType.value, "")]))
  }

  /** The answer of the external program that is waited for, if there is one. */
  function Executed(m: Modules, s: State): (x: Exit)
  {
    var e := Find(s.reply, EXEC_PROGRAM_WAIT);
    if e.None? then Exit(0, s) else m.execWait(e.value.text, s.(reply := Without(s.reply, EXEC_PROGRAM_WAIT)))
  }

  /** The reply code is set to accept if nothing has set it before. */
  function Concluded(m: Modules, s: State): (r: State)
  {
    s.(reply := m.edited(s.reply), code := if s.code == 0 then ACCEPT else s.code)
  }

  function AcceptedEnd(m: Modules, s: State): (r: State)
  {
    var x := Executed(m, s);
    if x.status != 0 then x.state.(code := REJECT, reply := x.state.reply + [Item(REPLY_MESSAGE, 0, EXEC_FAILED)])
    else PostAuthed(m, Concluded(m, x.state))
  }

  datatype Outcome = Outcome(state: State, calls: nat)

  /** From the authorised request on. */
  function Judged(m: Modules, s: State): (r: State)
  {
    if SentOn(s) then s
    else
      var c := Validated(m, s);
      if c.result > 0 then c.state
      else
        var g := Gated(m, s.named, c);
        if g.result < 0 then RejectedEnd(m, g.state) else AcceptedEnd(m, g.state)
  }

  function Decided(m: Modules, p: Proxy, s: State): (r: Outcome)
  {
    if FromHome(p) && p.replyCode.value == CHALLENGE then Outcome(s.(code := CHALLENGE), 0)
    else if FromHome(p) && p.replyCode.value != ACCEPT then
      Outcome(s.(config := s.config + [Item(AUTH_TYPE, TYPE_REJECT, "")], code := REJECT), 0)
    else
      var a := Authorized(m, Entering(p, s));
      if !a.ok then Outcome(a.state, a.calls) else Outcome(Judged(m, a.state), a.calls)
  }

  // ---------------------------------------------------------------- what an Access-Accept means

  /** No module or program writes Access-Accept into the reply by itself. */
  ghost predicate Honest(m: Modules)
  {
    && (forall n, t, s :: m.authorize(n, t, s).state.code == ACCEPT ==> s.code == ACCEPT)
    && (forall t, s :: m.authenticate(t, s).state.code == ACCEPT ==> s.code == ACCEPT)
    && (forall t, s, n :: m.simultaneous(t, s, n).state.code == ACCEPT ==> s.code == ACCEPT)
    && (forall t, s :: m.postAuth(t, s).state.code == ACCEPT ==> s.code == ACCEPT)
    && (forall t, s :: m.execWait(t, s).state.code == ACCEPT ==> s.code == ACCEPT)
  }

  /** The post-authentication step lets an accepted request pass. */
  predicate PostAuthPasses(m: Modules, s: State)
  {
    var a := m.postAuth(ValueOr(Find(s.config, POST_AUTH_TYPE), 0), s);
    !PostAuthRejects(a.rcode) && a.state.code == ACCEPT
  }

  /** Every gate behind authorisation, one after the other. */
  predicate Passes(m: Modules, s: State)
  {
    && !SentOn(s)
    && !Expired(m.now, s.config)
    && var c := CheckedPassword(m, s);
       && c.result == 0
       && var u := Counted(m, s.named, c.state);
          && u.result == 0
          && !OutOfHours(m, u.state)
          && Ends(m, Timed(m, u.state))
  }

  /** The last gates: the external program and the post-authentication step. */
  predicate Ends(m: Modules, s: State)
  {
    var x := Executed(m, s);
    x.status == 0 && x.state.code == 0 && PostAuthPasses(m, Concluded(m, x.state))
  }

  predicate PassesAll(m: Modules, p: Proxy, s: State)
  {
    && (FromHome(p) ==> p.replyCode.value == ACCEPT)
    && var a := Authorized(m, Entering(p, s));
       a.ok && Passes(m, a.state)
  }

  lemma RejectedEndRejects(m: Modules, s: State)
    requires Honest(m) && s.code == REJECT
    ensures RejectedEnd(m, s).code != ACCEPT
  {
  }

  lemma AcceptedEndExactly(m: Modules, s: State)
    requires Honest(m) && s.code != ACCEPT
    ensures AcceptedEnd(m, s).code == ACCEPT <==> Ends(m, s)
  {
    var x := Executed(m, s);
    assert x.state.code != ACCEPT;
  }

  lemma JudgedExactly(m: Modules, s: State)
    requires Honest(m) && s.code != ACCEPT
    ensures Judged(m, s).code == ACCEPT <==> Passes(m, s)
  {
    if !SentOn(s) {
      var c := Validated(m, s);
      assert c.state.code != ACCEPT;
      if c.result <= 0 {
        var g := Gated(m, s.named, c);
        if g.result < 0 {
          RejectedEndRejects(m, g.state);
        } else {
          AcceptedEndExactly(m, g.state);
        }
      }
    }
  }

  lemma AuthorizedKeeps(m: Modules, s: State)
    requires Honest(m) && s.code != ACCEPT
    ensures Authorized(m, s).state.code != ACCEPT && 1 <= Authorized(m, s).calls <= 2
  {
    var a := m.authorize(0, 0, s);
    assert a.state.code != ACCEPT;
  }

  /** With modules that do not accept by themselves, a request ends in Access-Accept exactly when it
      passes every gate; and authorisation runs at most twice. */
  lemma AcceptedExactly(m: Modules, p: Proxy, s: State)
    requires Honest(m) && s.code == 0
    ensures Decided(m, p, s).state.code == ACCEPT <==> PassesAll(m, p, s)
    ensures Decided(m, p, s).calls <= 2
  {
    if !FromHome(p) || p.replyCode.value == ACCEPT {
      AuthorizedKeeps(m, Entering(p, s));
      var a := Authorized(m, Entering(p, s));
      if a.ok {
        JudgedExactly(m, a.state);
      }
    }
  }

  /** One Auth-Type = Reject among the configuration items after authorisation is enough to refuse the
      user, beside any other Auth-Type and also if the home server has accepted. */
  lemma RejectPrevails(m: Modules, p: Proxy, s: State)
    requires Honest(m) && s.code == 0
    requires FromHome(p) ==> p.replyCode.value == ACCEPT
    requires Rejecting(Authorized(m, Entering(p, s)).state.config)
    ensures Decided(m, p, s).state.code != ACCEPT
  {
    AcceptedExactly(m, p, s);
  }

  /** A request on its way, and whether authorisation left it a user name. */
  datatype Checkpoint = Checkpoint(named: bool, state: State)

  /** The request where its sessions are counted, if it gets there. */
  function BeforeCount(m: Modules, p: Proxy, s: State): (r: Option<Checkpoint>)
  {
    if FromHome(p) && p.replyCode.value != ACCEPT then None
    else
      var a := Authorized(m, Entering(p, s));
      if !a.ok || SentOn(a.state) || Expired(m.now, a.state.config) then None
      else
        var c := CheckedPassword(m, a.state);
        if c.result != 0 then None else Some(Checkpoint(a.state.named, c.state))
  }

  /** The request where its hours are looked at. */
  function BeforeHours(m: Modules, p: Proxy, s: State): (r: Option<State>)
  {
    var b := BeforeCount(m, p, s);
    if b.None? then None
    else
      var u := Counted(m, b.value.named, b.value.state);
      if u.result != 0 then None else Some(u.state)
  }

  /** The request where the post-authentication step is called for a user who is not refused. */
  function BeforePostAuth(m: Modules, p: Proxy, s: State): (r: Option<State>)
  {
    var b := BeforeHours(m, p, s);
    if b.None? || OutOfHours(m, b.value) then None
    else
      var x := Executed(m, Timed(m, b.value));
      if x.status != 0 then None else Some(Concluded(m, x.state))
  }

  /** The gates behind the count of sessions. */
  predicate LaterGates(m: Modules, s: State)
  {
    !OutOfHours(m, s) && Ends(m, Timed(m, s))
  }

  /** The count lets a user pass who is below the limit, or who adds a line to a multilink call for which
      the reply grants more ports than the limit. */
  predicate CountPasses(x: Exit, limit: word)
  {
    var ports := Find(x.state.reply, 62);
    x.status == 0 || (x.status == 2 && ports.Some? && ports.value.value > limit)
  }

  /** A request that gets as far as the count of sessions, with a limit and a user name, is accepted exactly
      when the count lets it pass and what the counting module left of it passes the later gates; without
      a limit or a name nobody counts. */
  lemma SessionsDecide(m: Modules, p: Proxy, s: State)
    requires Honest(m) && s.code == 0 && BeforeCount(m, p, s).Some?
    ensures var u := BeforeCount(m, p, s).value;
            var limit := Find(u.state.config, SIMULTANEOUS_USE);
            Decided(m, p, s).state.code == ACCEPT
            <==> if limit.None? || !u.named then LaterGates(m, u.state)
                 else
                   var x := m.simultaneous(ValueOr(Find(u.state.config, SESSION_TYPE), 0), u.state, limit.value.value);
                   CountPasses(x, limit.value.value) && LaterGates(m, x.state)
  {
    AcceptedExactly(m, p, s);
  }

  /** The post-authentication step has the last word on a user who got there: the reply is an accept exactly
      if it was one, the answer is no failure and the module left it so; a failing answer is a reject; and
      otherwise the request ends as the module left it.  A user who did not get there is not accepted. */
  lemma PostAuthDecides(m: Modules, p: Proxy, s: State)
    requires Honest(m) && s.code == 0
    ensures BeforePostAuth(m, p, s).None? ==> Decided(m, p, s).state.code != ACCEPT
    ensures BeforePostAuth(m, p, s).Some? ==>
              var u := BeforePostAuth(m, p, s).value;
              var a := m.postAuth(ValueOr(Find(u.config, POST_AUTH_TYPE), 0), u);
              if PostAuthRejects(a.rcode) then Decided(m, p, s).state == a.state.(code := REJECT)
              else Decided(m, p, s).state == a.state && (a.state.code == ACCEPT ==> u.code == ACCEPT)
  {
    AcceptedExactly(m, p, s);
  }

  /** A Login-Time is kept exactly when at least 60 seconds are left; the answer 0, which stands for no
      limit, is refused like no time at all. */
  lemma LoginTimeDecides(m: Modules, p: Proxy, s: State, hours: Item)
    requires Honest(m) && s.code == 0 && BeforeHours(m, p, s).Some?
    requires Find(BeforeHours(m, p, s).value.config, LOGIN_TIME) == Some(hours)
    ensures var left := m.timeLeft(hours.text);
            var u := BeforeHours(m, p, s).value;
            Decided(m, p, s).state.code == ACCEPT <==> left >= 60 && Ends(m, u.(reply := Limited(u.reply, left)))
  {
    AcceptedExactly(m, p, s);
  }

  /** With a Login-Time the user gets a Session-Timeout of no more than is left, and nothing else changes. */
  lemma {:induction false} TimeIsLimited(reply: seq<Item>, left: word)
    ensures var t := Find(Limited(reply, left), SESSION_TIMEOUT);
            t.Some? && t.value.value <= left
    ensures Without(Limited(reply, left), SESSION_TIMEOUT) == Without(reply, SESSION_TIMEOUT)
  {
    if reply != [] {
      var r := Limited(reply, left);
      assert r[1..] == if reply[0].attribute == SESSION_TIMEOUT then reply[1..] else Limited(reply[1..], left);
      if reply[0].attribute != SESSION_TIMEOUT {
        TimeIsLimited(reply[1..], left);
      }
    }
  }

  /** The last Auth-Type counts. */
  lemma {:induction false} AuthTypeIsLast(config: seq<Item>, k: nat)
    requires k < |config| && config[k].attribute == AUTH_TYPE
    requires forall j :: k < j < |config| ==> config[j].attribute != AUTH_TYPE
    ensures AuthType(config) == SignedWord(config[k].value)
    decreases |config|
  {
    if k < |config| - 1 {
      AuthTypeIsLast(config[..|config| - 1], k);
    }
  }

  lemma {:induction false} NoAuthType(config: seq<Item>)
    requires forall i :: i in config ==> i.attribute != AUTH_TYPE
    ensures AuthType(config) == -1 && !Rejecting(config)
  {
    if config != [] {
      NoAuthType(config[..|config| - 1]);
    }
  }

  /** A user for whom authorisation leaves nothing configured, neither a type nor a password, is not
      accepted, whatever the modules are. */
  lemma FailSafe(m: Modules, p: Proxy, s: State)
    requires Honest(m) && s.code == 0
    requires var u := Authorized(m, Entering(p, s)).state;
             !u.proxied && forall i :: i in u.config ==> i.attribute !in {AUTH_TYPE, CRYPT_PASSWORD, PASSWORD}
    ensures Decided(m, p, s).state.code != ACCEPT
  {
    AcceptedExactly(m, p, s);
    NoAuthType(Authorized(m, Entering(p, s)).state.config);
  }

  /** Without Auth-Type, the stored password decides, a crypted one before a plain one: a user is accepted
      only if the given password agrees with it. */
  lemma StoredDecides(m: Modules, p: Proxy, s: State, given: Item)
    requires Honest(m) && s.code == 0 && given.attribute == PASSWORD
    requires var u := Authorized(m, Entering(p, s)).state;
             && !u.proxied && u.password == Some(given) && Find(u.config, PASSWORD).Some?
             && forall i :: i in u.config ==> i.attribute != AUTH_TYPE
    ensures var u := Authorized(m, Entering(p, s)).state;
            var crypt := Find(u.config, CRYPT_PASSWORD);
            var agrees := if crypt.Some? then m.crypt(given.text, crypt.value.text) !in {-1, 1}
                          else given.text == Find(u.config, PASSWORD).value.text;
            (CheckedPassword(m, u).result == 0 <==> agrees) && (Decided(m, p, s).state.code == ACCEPT ==> agrees)
  {
    AcceptedExactly(m, p, s);
    NoAuthType(Authorized(m, Entering(p, s)).state.config);
  }

  // ---------------------------------------------------------------- as the program does it

  class Request {
    var config: seq<Item>
    var reply: seq<Item>
    var packet: seq<Item>
    var code: int
    var named: bool
    var password: Option<Item>
    var proxied: bool

    function Snapshot(): (s: State)
      reads this
    {
      State(config, reply, packet, code, named, password, proxied)
    }

    constructor (s: State)
      ensures Snapshot() == s
    {
      config, reply, packet, code := s.config, s.reply, s.packet, s.code;
      named, password, proxied := s.named, s.password, s.proxied;
    }

    /** What a module leaves of the request. */
    method Restore(s: State)
      modifies this
      ensures Snapshot() == s
    {
      config, reply, packet, code := s.config, s.reply, s.packet, s.code;
      named, password, proxied := s.named, s.password, s.proxied;
    }

    method CheckExpiration(now: nat) returns (result: int)
      modifies this
      ensures result == (if Expired(now, old(config)) then -1 else 0)
      ensures Snapshot()
           == if Expired(now, old(config)) then old(Snapshot()).(reply := EXPIRED_REPLY) else old(Snapshot())
    {
      result := 0;
      var i := 0;
      while result == 0 && i < |config|
        invariant i <= |config| && config == old(config)
        invariant result == 0 ==> Snapshot() == old(Snapshot()) && !Expired(now, config[..i])
        invariant result != 0 ==>
                    result == -1 && Expired(now, old(config)) && Snapshot() == old(Snapshot()).(reply := EXPIRED_REPLY)
        decreases |config| - i, result == 0
      {
        if config[i].attribute == EXPIRATION && config[i].value < now {
          result := -1;
          reply := EXPIRED_REPLY;
        } else {
          assert config[..i + 1] == config[..i] + [config[i]];
          i := i + 1;
        }
      }
      assert i == |config| ==> config[..i] == config;
    }

    /** The loop over all Auth-Types. */
    method ScanAuthTypes() returns (authType: int, rejected: bool)
      ensures rejected <==> Rejecting(config)
      ensures !rejected ==> authType == AuthType(config)
    {
      authType, rejected := -1, false;
      var i := 0;
      while i < |config|
        invariant i <= |config| && !Rejecting(config[..i]) && authType == AuthType(config[..i])
      {
        assert config[..i + 1] == config[..i] + [config[i]];
        assert config[..i + 1][..i] == config[..i];
        if config[i].attribute == AUTH_TYPE {
          authType := SignedWord(config[i].value);
          if authType == TYPE_REJECT {
            return authType, true;
          }
        }
        i := i + 1;
      }
      assert config[..i] == config;
    }

    method CheckPassword(m: Modules) returns (result: int)
      modifies this
      ensures Checked(result, Snapshot()) == CheckedPassword(m, old(Snapshot()))
    {
      var authType, rejected := ScanAuthTypes();
      if rejected {
        return -2;
      }
      if authType == TYPE_ACCEPT || proxied {
        return 0;
      }
      var stored := Find(config, CRYPT_PASSWORD);
      if stored.Some? {
        if authType == -1 {
          authType := TYPE_CRYPT;
        }
      } else {
        stored := Find(config, PASSWORD);
      }
      if authType < 0 {
        if stored.None? {
          return -2;
        }
        authType := TYPE_LOCAL;
      }
      if authType == TYPE_CRYPT || authType == TYPE_LOCAL {
        result := if Matches(m, authType, password, stored) then 0 else -1;
      } else {
        var a := m.authenticate(authType, Snapshot());
        Restore(a.state);
        result := ModuleResult(a.rcode);
      }
    }

    method PostAuth(m: Modules)
      modifies this
      ensures Snapshot() == PostAuthed(m, old(Snapshot()))
    {
      var a := m.postAuth(ValueOr(Find(config, POST_AUTH_TYPE), 0), Snapshot());
      Restore(a.state);
      if PostAuthRejects(a.rcode) {
        code := REJECT;
      }
    }

    /** Authorisation, with the jump back taken at most once. */
    method Authorize(m: Modules) returns (ok: bool, calls: nat)
      modifies this
      ensures Authorization(Snapshot(), calls, ok) == Authorized(m, old(Snapshot()))
    {
      var autzType: word, retried := 0, false;
      calls := 0;
      while true
        invariant if retried then calls == 1 && ResumesAt(m, old(Snapshot()), Snapshot(), autzType)
                  else calls == 0 && Snapshot() == old(Snapshot()) && autzType == 0
        decreases !retried
      {
        var a := m.authorize(calls, autzType, Snapshot());
        calls := calls + 1;
        Restore(a.state);
        if !Continues(a.rcode) {
          if a.rcode != Fail && a.rcode != Handled {
            code := REJECT;
          }
          return false, calls;
        }
        var again := Find(config, AUTZ_TYPE);
        if retried || again.None? {
          return true, calls;
        }
        autzType, retried := again.value.value, true;
      }
    }

    /** Where the second authorisation starts from. */
    static ghost predicate ResumesAt(m: Modules, s: State, s': State, autzType: word)
    {
      var a := m.authorize(0, 0, s);
      && Continues(a.rcode) && s' == a.state && Find(s'.config, AUTZ_TYPE).Some?
      && autzType == Find(s'.config, AUTZ_TYPE).value.value
    }

    method CountSessions(m: Modules, known: bool) returns (result: int)
      modifies this
      ensures Checked(result, Snapshot()) == Counted(m, known, old(Snapshot()))
    {
      result := 0;
      var limit := Find(config, SIMULTANEOUS_USE);
      if limit.Some? && known {
        var x := m.simultaneous(ValueOr(Find(config, SESSION_TYPE), 0), Snapshot(), limit.value.value);
        Restore(x.state);
        if x.status != 0 {
          var multilink := x.status == 2 && ValueOr(Find(reply, PORT_LIMIT), 0) > limit.value.value;
          if !multilink {
            Restore(Refused(Snapshot(), TOO_MANY));
            result := -1;
          }
        }
      }
    }

    method Gate(m: Modules, known: bool, failed: int) returns (result: int)
      requires failed <= 0
      modifies this
      ensures Checked(result, Snapshot()) == Gated(m, known, Checked(failed, old(Snapshot())))
    {
      result := failed;
      if result < 0 {
        code := REJECT;
      }
      if result >= 0 {
        result := CountSessions(m, known);
      }
      if result >= 0 {
        var hours := Find(config, LOGIN_TIME);
        if hours.Some? {
          var left := m.timeLeft(hours.value.text);
          if left < 60 {
            Restore(Refused(Snapshot(), OUT_OF_HOURS));
            result := -1;
          } else {
            reply := Limited(reply, left);
          }
        }
      }
    }

    method Conclude(m: Modules)
      modifies this
      ensures Snapshot() == AcceptedEnd(m, old(Snapshot()))
    {
      var program := Find(reply, EXEC_PROGRAM_WAIT);
      if program.Some? {
        reply := Without(reply, EXEC_PROGRAM_WAIT);
        var x := m.execWait(program.value.text, Snapshot());
        Restore(x.state);
        if x.status != 0 {
          code := REJECT;
          reply := reply + [Item(REPLY_MESSAGE, 0, EXEC_FAILED)];
          return;
        }
      }
      reply := m.edited(reply);
      if code == 0 {
        code := ACCEPT;
      }
      PostAuth(m);
    }

    /** The request behind authorisation. */
    method Judge(m: Modules)
      modifies this
      ensures Snapshot() == Judged(m, old(Snapshot()))
    {
      if !proxied && Find(config, PROXY_TO_REALM).Some? {
        return;
      }
      var known := named;
      var result := CheckExpiration(m.now);
      if result >= 0 {
        result := CheckPassword(m);
        if result > 0 {
          return;
        }
      }
      result := Gate(m, known, result);
      if result < 0 {
        if m.rejectType.Some? {
          config := Without(config, POST_AUTH_TYPE) + [Item(POST_AUTH_TYPE, m.rejectType.value, "")];
          PostAuth(m);
        }
      } else {
        Conclude(m);
      }
    }

    /** The program reaches the decision that is specified, with as many authorisations. */
    method Decide(m: Modules, p: Proxy) returns (calls: nat)
      modifies this
      ensures Outcome(Snapshot(), calls) == Decided(m, p, old(Snapshot()))
    {
      if p.packetCode == ACCESS_REQUEST && p.replyCode.Some? {
        if p.replyCode.value == CHALLENGE {
          code := CHALLENGE;
          return 0;
        }
        config := config + [Item(AUTH_TYPE, if p.replyCode.value == ACCEPT then TYPE_ACCEPT else TYPE_REJECT, "")];
        if p.replyCode.value != ACCEPT {
          code := REJECT;
          return 0;
        }
      }
      if password.None? {
        password := Find(packet, PASSWORD);
      }
      if password.None? {
        password := Find(packet, CHAP_PASSWORD);
      }
      var ok;
      ok, calls := Authorize(m);
      if ok {
        Judge(m);
      }
    }
  }
}
