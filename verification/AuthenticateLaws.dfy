/**
 How single answers decide about a request (auth.c), with the attribute numbers of the dictionary and the
 packet codes of section 3 of RFC 2865: 2 Access-Accept, 3 Access-Reject, 11 Access-Challenge.
 */
module AuthenticateLaws {
  import opened Octets
  import opened Authenticate

  /** Item `k` is the first with this attribute. */
  ghost predicate FirstAt(items: seq<Item>, attribute: int, k: nat)
  {
    k < |items| && items[k].attribute == attribute && forall j :: 0 <= j < k ==> items[j].attribute != attribute
  }

  lemma {:induction false} FindIsFirst(items: seq<Item>, attribute: int, k: nat)
    requires FirstAt(items, attribute, k)
    ensures Find(items, attribute) == Some(items[k])
  {
    if k > 0 {
      FindIsFirst(items[1..], attribute, k - 1);
    }
  }

  /** Deleting an attribute keeps every other item as often as it was there. */
  lemma {:induction false} WithoutKeeps(items: seq<Item>, attribute: int, i: Item)
    ensures multiset(Without(items, attribute))[i] == if i.attribute == attribute then 0 else multiset(items)[i]
  {
    if items != [] {
      assert items == [items[0]] + items[1..];
      WithoutKeeps(items[1..], attribute, i);
    }
  }

  // ---------------------------------------------------------------- before authorisation

  /** The home server's answer: a challenge is passed on, everything that is neither accept nor challenge is a
      reject, and only an accept, or no answer to an Access-Request, lets the modules see the request. */
  lemma HomeDecides(m: Modules, p: Proxy, s: State)
    ensures p.packetCode == 1 && p.replyCode == Some(11) ==> Decided(m, p, s) == Outcome(s.(code := 11), 0)
    ensures p.packetCode == 1 && p.replyCode.Some? && p.replyCode.value !in {2, 11} ==>
              Decided(m, p, s) == Outcome(s.(config := s.config + [Item(1000, 4, "")], code := 3), 0)
    ensures p.packetCode != 1 || p.replyCode.None? || p.replyCode == Some(2) ==> Decided(m, p, s).calls >= 1
  {
  }

  /** An accept of the home server stands behind all other types, so that it is the one that counts. */
  lemma HomeAcceptCounts(p: Proxy, s: State)
    requires p.packetCode == 1 && p.replyCode == Some(2)
    ensures AuthType(Entering(p, s).config) == 254
    ensures Rejecting(Entering(p, s).config) <==> Rejecting(s.config)
  {
    AuthTypeIsLast(Entering(p, s).config, |s.config|);
  }

  /** The password that is looked at: the one already set, else the first User-Password of the packet, else
      the first CHAP-Password. */
  lemma PasswordChosen(p: Proxy, s: State, k: nat)
    ensures s.password.Some? ==> Entering(p, s).password == s.password
    ensures s.password.None? && FirstAt(s.packet, 2, k) ==> Entering(p, s).password == Some(s.packet[k])
    ensures s.password.None? && (forall i :: i in s.packet ==> i.attribute != 2) && FirstAt(s.packet, 3, k) ==>
              Entering(p, s).password == Some(s.packet[k])
  {
    if FirstAt(s.packet, 2, k) {
      FindIsFirst(s.packet, 2, k);
    } else if FirstAt(s.packet, 3, k) {
      FindIsFirst(s.packet, 3, k);
    }
  }

  // ---------------------------------------------------------------- authorisation

  /** What an answer that ends authorisation leaves: no reply of ours if the module failed or has handled the
      request, a reject otherwise. */
  function Stopped(a: Answer): (s: State)
  {
    match a.rcode
    case Fail => a.state
    case Handled => a.state
    case _ => a.state.(code := 3)
  }

  /** The first answer ends authorisation unless it is ok, noop, notfound or updated; then an Autz-Type, the
      first one, asks for one more, and that answer ends it in the same way. */
  lemma AuthorizationDecides(m: Modules, p: Proxy, s: State, k: nat)
    requires p.packetCode == 1 && p.replyCode.Some? ==> p.replyCode.value == 2
    ensures var a := m.authorize(0, 0, Entering(p, s));
            if a.rcode !in {Ok, Noop, NotFound, Updated} then Decided(m, p, s) == Outcome(Stopped(a), 1)
            else if forall i :: i in a.state.config ==> i.attribute != 1011 then
              Decided(m, p, s) == Outcome(Judged(m, a.state), 1)
            else FirstAt(a.state.config, 1011, k) ==>
              var b := m.authorize(1, a.state.config[k].value, a.state);
              Decided(m, p, s) == Outcome(if b.rcode in {Ok, Noop, NotFound, Updated} then Judged(m, b.state)
                                          else Stopped(b), 2)
  {
    var a := m.authorize(0, 0, Entering(p, s));
    if FirstAt(a.state.config, 1011, k) {
      FindIsFirst(a.state.config, 1011, k);
    }
  }

  // ---------------------------------------------------------------- the user

  /** The authorised request is to be judged here. */
  predicate Reaches(m: Modules, p: Proxy, s: State)
  {
    && (p.packetCode == 1 && p.replyCode.Some? ==> p.replyCode.value == 2)
    && Authorized(m, Entering(p, s)).ok
    && var u := Authorized(m, Entering(p, s)).state;
       u.proxied || forall i :: i in u.config ==> i.attribute != 1048
  }

  /** The password is not yet too old. */
  predicate Fresh(now: nat, config: seq<Item>)
  {
    forall i :: i in config && i.attribute == 1010 ==> i.value >= now
  }

  /** A request with a realm to be sent to is left as authorisation made it, unless it has been there. */
  lemma SentOnIsLeft(m: Modules, p: Proxy, s: State, realm: Item)
    requires p.packetCode == 1 && p.replyCode.Some? ==> p.replyCode.value == 2
    requires var a := Authorized(m, Entering(p, s));
             a.ok && !a.state.proxied && realm in a.state.config && realm.attribute == 1048
    ensures Decided(m, p, s).state == Authorized(m, Entering(p, s)).state
  {
  }

  lemma JudgedHere(m: Modules, p: Proxy, s: State)
    requires Reaches(m, p, s)
    ensures var u := Authorized(m, Entering(p, s)).state;
            Decided(m, p, s).state == Judged(m, u) && !SentOn(u)
  {
  }

  lemma RefusalStays(m: Modules, s: State)
    requires CodeKept(m) && s.code == 3
    ensures RejectedEnd(m, s).code == 3
  {
  }

  /** Whoever is refused ends in Access-Reject, if the post-authentication step does not write another code:
      with an expired password, ... */
  lemma ExpiredIsRejected(m: Modules, p: Proxy, s: State)
    requires Reaches(m, p, s) && CodeKept(m)
    requires !Fresh(m.now, Authorized(m, Entering(p, s)).state.config)
    ensures Decided(m, p, s).state.code == 3
  {
    var u := Authorized(m, Entering(p, s)).state;
    JudgedHere(m, p, s);
    RefusalStays(m, u.(reply := EXPIRED_REPLY, code := REJECT));
    assert Validated(m, u) == Checked(-1, u.(reply := EXPIRED_REPLY));
  }

  /** ... after a failed password check, ... */
  lemma WrongIsRejected(m: Modules, p: Proxy, s: State)
    requires Reaches(m, p, s) && CodeKept(m) && CheckedPassword(m, Authorized(m, Entering(p, s)).state).result < 0
    ensures Decided(m, p, s).state.code == 3
  {
    var u := Authorized(m, Entering(p, s)).state;
    JudgedHere(m, p, s);
    FailureRejects(m, u);
  }

  lemma FailureRejects(m: Modules, u: State)
    requires !SentOn(u) && CodeKept(m) && CheckedPassword(m, u).result < 0
    ensures Judged(m, u).code == 3
  {
    var c := Validated(m, u);
    RefusalStays(m, c.state.(code := REJECT));
  }

  /** ... with too many sessions ... */
  lemma SessionsAreRejected(m: Modules, p: Proxy, s: State, limit: Item, x: Exit)
    requires CodeKept(m) && BeforeCount(m, p, s).Some?
    requires var u := BeforeCount(m, p, s).value;
             && u.named && Find(u.state.config, 1034) == Some(limit)
             && x == m.simultaneous(ValueOr(Find(u.state.config, 1013), 0), u.state, limit.value)
             && !CountPasses(x, limit.value)
    ensures Decided(m, p, s).state.code == 3
    ensures m.rejectType.None? ==>
              Decided(m, p, s).state
              == x.state.(code := 3, reply := [Item(18, 0, "You are already logged in - access denied")])
  {
    var u := BeforeCount(m, p, s).value;
    var g := Gated(m, u.named, Checked(0, u.state));
    assert g == Counted(m, u.named, u.state) == Checked(-1, Refused(x.state, TOO_MANY));
    RefusalStays(m, g.state);
    assert Decided(m, p, s).state == RejectedEnd(m, g.state);
  }

  /** ... or outside the hours. */
  lemma LateIsRejected(m: Modules, p: Proxy, s: State, hours: Item)
    requires CodeKept(m) && BeforeHours(m, p, s).Some?
    requires Find(BeforeHours(m, p, s).value.config, 1042) == Some(hours) && m.timeLeft(hours.text) < 60
    ensures Decided(m, p, s).state.code == 3
    ensures m.rejectType.None? ==>
              Decided(m, p, s).state
              == BeforeHours(m, p, s).value.(code := 3,
                   reply := [Item(18, 0, "You are calling outside your allowed timespan")])
  {
    var b := BeforeCount(m, p, s).value;
    var u := BeforeHours(m, p, s).value;
    var g := Gated(m, b.named, Checked(0, b.state));
    assert g == Checked(-1, Refused(u, OUT_OF_HOURS));
    RefusalStays(m, g.state);
    assert Decided(m, p, s).state == RejectedEnd(m, g.state);
  }

  /** The dictionary has no name for the post-authentication of refused users, or no such step changes a code. */
  ghost predicate CodeKept(m: Modules)
  {
    m.rejectType.None? || forall t, s :: m.postAuth(t, s).state.code == s.code
  }

  /** Without such a name an expired user gets just one message, and no module is asked for the password. */
  lemma ExpiredExactly(m: Modules, p: Proxy, s: State)
    requires Reaches(m, p, s) && m.rejectType.None?
    ensures var u := Authorized(m, Entering(p, s)).state;
            if Fresh(m.now, u.config) then CheckedPassword(m, u).result < 0 ==>
              Decided(m, p, s).state == CheckedPassword(m, u).state.(code := 3)
            else Decided(m, p, s).state == u.(reply := [Item(18, 0, "Password Has Expired")], code := 3)
  {
  }

  // ---------------------------------------------------------------- the password

  /** Item `k` is the last Auth-Type, and none says reject. */
  ghost predicate TypeAt(config: seq<Item>, k: nat)
  {
    && k < |config| && config[k].attribute == 1000
    && (forall j :: k < j < |config| ==> config[j].attribute != 1000)
    && (forall i :: i in config && i.attribute == 1000 ==> i.value != 4)
  }

  lemma TypeIs(config: seq<Item>, k: nat)
    requires TypeAt(config, k)
    ensures AuthType(config) == SignedWord(config[k].value) && !Rejecting(config)
  {
    AuthTypeIsLast(config, k);
  }

  /** The module of the last Auth-Type, unless that is local, crypt or accept, decides: ok lets the user go on
      with what the module left, handled leaves the request to the module, and every other answer refuses. */
  lemma ModuleDecides(m: Modules, p: Proxy, s: State, k: nat)
    requires Honest(m) && s.code == 0 && Reaches(m, p, s)
    requires var u := Authorized(m, Entering(p, s)).state;
             && !u.proxied && Fresh(m.now, u.config) && TypeAt(u.config, k)
             && u.config[k].value < 0x8000_0000 && u.config[k].value !in {0, 3, 254}
    ensures var u := Authorized(m, Entering(p, s)).state;
            var b := m.authenticate(u.config[k].value, u);
            var r := Decided(m, p, s).state;
            match b.rcode
            case Ok =>
              r.code == 2 <==> Counted(m, u.named, b.state).result == 0
                               && LaterGates(m, Counted(m, u.named, b.state).state)
            case Handled => r == b.state
            case _ => r.code != 2 && (CodeKept(m) ==> r.code == 3)
                      && (m.rejectType.None? ==> r == b.state.(code := 3))
  {
    var u := Authorized(m, Entering(p, s)).state;
    AuthorizedKeeps(m, Entering(p, s));
    JudgedHere(m, p, s);
    JudgedExactly(m, u);
    ModuleAsked(m, u, k);
    if m.authenticate(u.config[k].value, u).rcode !in {Ok, Handled} && CodeKept(m) {
      FailureRejects(m, u);
    }
  }

  /** The module's answer is what the check comes to. */
  lemma ModuleAsked(m: Modules, u: State, k: nat)
    requires !u.proxied && TypeAt(u.config, k)
    requires u.config[k].value < 0x8000_0000 && u.config[k].value !in {0, 3, 254}
    ensures var b := m.authenticate(u.config[k].value, u);
            CheckedPassword(m, u) == Checked(match b.rcode case Ok => 0 case Handled => 1 case _ => -1, b.state)
  {
    TypeIs(u.config, k);
  }

  /** Auth-Type accept, or a request that comes back from its home server, needs no password. */
  lemma AcceptNeedsNoPassword(m: Modules, s: State, k: nat)
    requires TypeAt(s.config, k) && (s.config[k].value == 254 || s.proxied)
    ensures CheckedPassword(m, s) == Checked(0, s)
  {
    TypeIs(s.config, k);
  }

  /** With Auth-Type local the stored text is compared, with crypt the comparison of the C library decides, and
      a CHAP-Password answers for the stored text; the request itself does not change. */
  lemma SchemesDecide(m: Modules, s: State, k: nat, given: Item, stored: Item)
    requires TypeAt(s.config, k) && !s.proxied && s.password == Some(given) && Stored(s.config) == Some(stored)
    ensures s.config[k].value == 0 ==>
              CheckedPassword(m, s)
              == Checked(if (given.attribute == 2 && given.text == stored.text)
                            || (given.attribute == 3 && m.chap(given, stored)) then 0 else -1, s)
    ensures s.config[k].value == 3 ==>
              CheckedPassword(m, s) == Checked(if m.crypt(given.text, stored.text) in {-1, 1} then -1 else 0, s)
  {
    TypeIs(s.config, k);
  }

  /** A missing password, given or stored, is wrong in both schemes. */
  lemma MissingIsWrong(m: Modules, s: State, k: nat)
    requires TypeAt(s.config, k) && !s.proxied && s.config[k].value in {0, 3}
    requires s.password.None? || forall i :: i in s.config ==> i.attribute !in {2, 1006}
    ensures CheckedPassword(m, s) == Checked(-1, s)
  {
    TypeIs(s.config, k);
  }

  // ---------------------------------------------------------------- the end

  /** The external program sees the reply without its own Exec-Program-Wait; if it fails, the user is rejected
      with a message behind what it left of the reply, and the post-authentication step is not asked. */
  lemma ProgramDecides(m: Modules, s: State, k: nat)
    requires FirstAt(s.reply, 503, k)
    ensures var x := m.execWait(s.reply[k].text, s.(reply := Without(s.reply, 503)));
            x.status != 0 ==>
              AcceptedEnd(m, s)
              == x.state.(code := 3, reply := x.state.reply
                                              + [Item(18, 0, "Access denied (external check failed).")])
  {
    FindIsFirst(s.reply, 503, k);
  }

  /** The post-authentication step is called with the first Post-Auth-Type, 0 without one, on a request with code
      2 unless a code was set before; its fail, reject, userlock and invalid are rejects, after any other answer
      the request is as it left it. */
  lemma PostAuthIs(m: Modules, s: State, k: nat)
    requires forall i :: i in s.reply ==> i.attribute != 503
    ensures var u := s.(reply := m.edited(s.reply), code := if s.code == 0 then 2 else s.code);
            FirstAt(s.config, 1014, k) || (forall i :: i in s.config ==> i.attribute != 1014) ==>
              var a := m.postAuth(if FirstAt(s.config, 1014, k) then s.config[k].value else 0, u);
              AcceptedEnd(m, s)
              == if a.rcode in {Fail, Reject, UserLock, Invalid} then a.state.(code := 3) else a.state
  {
    if FirstAt(s.config, 1014, k) {
      FindIsFirst(s.config, 1014, k);
    }
  }

  /** A refused user's step is called with the type the dictionary calls reject, and with that one only. */
  lemma RejectedType(m: Modules, s: State, t: word)
    requires m.rejectType == Some(t)
    ensures var u := s.(config := Without(s.config, 1014) + [Item(1014, t, "")]);
            var a := m.postAuth(t, u);
            RejectedEnd(m, s) == if a.rcode in {Fail, Reject, UserLock, Invalid} then a.state.(code := 3) else a.state
  {
    var config := Without(s.config, 1014) + [Item(1014, t, "")];
    NoneLeft(s.config, 1014);
    FindIsFirst(config, 1014, |config| - 1);
  }

  lemma {:induction false} NoneLeft(items: seq<Item>, attribute: int)
    ensures forall i :: i in Without(items, attribute) ==> i in items && i.attribute != attribute
  {
    if items != [] {
      NoneLeft(items[1..], attribute);
    }
  }

  /** The Session-Timeout of the reply: the smaller of the first one and what is left, appended if there is
      none. */
  lemma {:induction false} LimitedAt(reply: seq<Item>, left: word, k: nat)
    ensures FirstAt(reply, 27, k) ==>
              Limited(reply, left) == reply[k := reply[k].(value := Min(reply[k].value, left))]
    ensures (forall i :: i in reply ==> i.attribute != 27) ==> Limited(reply, left) == reply + [Item(27, left, "")]
  {
    if reply != [] && reply[0].attribute != 27 {
      LimitedAt(reply[1..], left, if k > 0 then k - 1 else 0);
      assert reply == [reply[0]] + reply[1..];
    }
  }
}
