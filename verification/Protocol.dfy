/** Registration, authentication and shared-key agreement between the authentication centre and a
    device. The hash is an arbitrary function; nonces and the enrolment number L are parameters. */
module Protocol {
  import opened Common
  import opened Modular
  import opened Limbs
  import opened Chebyshev
  import opened NumberTheory
  import opened KeyRecovery
  import opened Matrix

  // ----- integers as the sources combine them -----

  /** Bitwise exclusive or of two naturals. */
  function Xor(a: nat, b: nat): nat
    decreases a + b
  {
    if a == 0 && b == 0 then 0
    else 2 * Xor(a / 2, b / 2) + (if a % 2 == b % 2 then 0 else 1)
  }

  lemma {:induction false} XorCancel(a: nat, b: nat)
    ensures Xor(Xor(a, b), b) == a && Xor(Xor(b, a), b) == a
    decreases a + b
  {
    if a != 0 || b != 0 {
      XorCancel(a / 2, b / 2);
      XorHalves(a, b);
      XorHalves(b, a);
      XorHalves(Xor(a, b), b);
      XorHalves(Xor(b, a), b);
    }
  }

  lemma XorHalves(a: nat, b: nat)
    ensures Xor(a, b) / 2 == Xor(a / 2, b / 2)
    ensures Xor(a, b) % 2 == if a % 2 == b % 2 then 0 else 1
  {
  }

  /** Bit i of an exclusive or is set exactly when one of the two bits is. */
  lemma {:induction false} XorBits(a: nat, b: nat, i: nat)
    ensures Shr(Xor(a, b), i) % 2 == (Shr(a, i) % 2 + Shr(b, i) % 2) % 2
  {
    hide Xor, Shr;
    XorHalves(a, b);
    if i == 0 {
      ShrZero(a);
      ShrZero(b);
      ShrZero(Xor(a, b));
    } else {
      XorBits(a / 2, b / 2, i - 1);
      ShrDown(a, i);
      ShrDown(b, i);
      ShrDown(Xor(a, b), i);
    }
  }

  lemma ShrDown(v: nat, i: nat)
    requires i > 0
    ensures Shr(v, i) == Shr(v / 2, i - 1)
  {
    hide Shr;
    ShrTwice(v, 1, i - 1);
    ShrHalf(v, 0);
    ShrZero(v);
  }

  /** 10 to the number of decimal digits of b. */
  function Shift(b: nat): nat {
    if b < 10 then 10 else 10 * Shift(b / 10)
  }

  /** The number whose decimal digits are those of a followed by those of b. */
  function Cat(a: nat, b: nat): nat { a * Shift(b) + b }

  function Cat3(a: nat, b: nat, c: nat): nat { Cat(Cat(a, b), c) }

  /** The decimal digits of a number, and the number that a list of digits stands for. */
  function Digits(n: nat): seq<nat> { if n < 10 then [n] else Digits(n / 10) + [n % 10] }

  function Parsed(d: seq<nat>): nat { if d == [] then 0 else 10 * Parsed(d[..|d| - 1]) + d[|d| - 1] }

  /** int(str(a) + str(b)), and with a third. */
  lemma CatIsText(a: nat, b: nat, c: nat)
    ensures Parsed(Digits(a) + Digits(b)) == Cat(a, b)
    ensures Parsed(Digits(a) + Digits(b) + Digits(c)) == Cat3(a, b, c)
  {
    hide Parsed, Digits, Shift;
    ParsedDigits(a);
    ParsedAppend(Digits(a), b);
    ParsedAppend(Digits(a) + Digits(b), c);
  }

  lemma {:induction false} ParsedAppend(d: seq<nat>, b: nat)
    ensures Parsed(d + Digits(b)) == Parsed(d) * Shift(b) + b
    decreases b
  {
    hide Parsed;
    if b < 10 {
      ParsedMore(d, b);
    } else {
      ParsedAppend(d, b / 10);
      assert d + Digits(b) == (d + Digits(b / 10)) + [b % 10];
      ParsedMore(d + Digits(b / 10), b % 10);
      var a := Parsed(d);
      assert a * (10 * Shift(b / 10)) == 10 * (a * Shift(b / 10));
    }
  }

  lemma ParsedMore(d: seq<nat>, x: nat)
    ensures Parsed(d + [x]) == 10 * Parsed(d) + x && Parsed([]) == 0
  {
    assert (d + [x])[..|d|] == d;
  }

  lemma {:induction false} ParsedDigits(n: nat)
    ensures Parsed(Digits(n)) == n
  {
    hide Parsed;
    if n < 10 {
      ParsedMore([], n);
      assert [] + [n] == [n];
    } else {
      ParsedDigits(n / 10);
      ParsedMore(Digits(n / 10), n % 10);
    }
  }

  // ----- what each party derives -----

  /** The centre's secrets and parameters. */
  datatype Keys = Keys(p: nat, q: nat, x: nat, sk: nat, e: nat) {
    function N(): nat { p * q }

    function Pk(): nat
      requires N() > 0
    {
      T(sk, x) % N()
    }

    ghost predicate Good() {
      && Prime(p) && Prime(q) && p != q && p % 2 == 1 && q % 2 == 1
      && Order(p, q) > 0 && ModInverse(e, Order(p, q)).Some?
    }
  }

  datatype Person = Person(name: nat, tag: nat, auth: nat)

  /** First entry with the given name. */
  function Lookup(people: seq<Person>, name: nat): Option<Person> {
    if people == [] then None
    else if people[0].name == name then Some(people[0])
    else Lookup(people[1..], name)
  }

  /** The first row of that name. */
  ghost predicate FirstRow(people: seq<Person>, name: nat, i: int) {
    0 <= i < |people| && people[i].name == name && forall j :: 0 <= j < i ==> people[j].name != name
  }

  lemma {:induction false} LookupSpec(people: seq<Person>, name: nat)
    ensures forall i :: FirstRow(people, name, i) ==> Lookup(people, name) == Some(people[i])
    ensures (forall i :: 0 <= i < |people| ==> people[i].name != name) ==> Lookup(people, name) == None
    ensures Lookup(people, name).Some? ==> exists i :: FirstRow(people, name, i)
  {
    if people != [] {
      var rest := people[1..];
      LookupSpec(rest, name);
      assert forall i :: 0 <= i < |rest| ==> rest[i] == people[i + 1];
      if people[0].name == name {
        assert FirstRow(people, name, 0);
      } else {
        forall i | FirstRow(people, name, i) ensures Lookup(people, name) == Some(people[i]) {
          assert FirstRow(rest, name, i - 1);
        }
        if Lookup(rest, name).Some? {
          var i :| FirstRow(rest, name, i);
          assert FirstRow(people, name, i + 1);
        }
      }
    }
  }

  /** A registration appends: it is found when its name is new, and hides no earlier entry. */
  lemma {:induction false} LookupAppend(people: seq<Person>, person: Person, name: nat)
    ensures Lookup(people + [person], name)
         == if Lookup(people, name).Some? then Lookup(people, name)
            else if person.name == name then Some(person) else None
  {
    if people != [] {
      LookupAppend(people[1..], person, name);
      assert (people + [person])[1..] == people[1..] + [person];
    }
  }

  type Hash = nat -> nat

  function Pid(h: Hash, uid: nat, bio: nat, l: nat): nat { h(Cat3(uid, l, bio)) }

  function SecretA(h: Hash, uid: nat, pw: nat, bio: nat, l: nat): nat { Xor(h(Cat3(uid, pw, bio)), l) }

  function AuthTag(h: Hash, k: Keys, pw: nat, pid: nat): nat { h(Cat3(k.sk, h(Cat(pw, k.sk)), pid)) }

  /** The row a registration stores. */
  function Enrolment(h: Hash, k: Keys, uid: nat, pw: nat, bio: nat, l: nat): Person
    requires k.N() > 0
  {
    var pid := Pid(h, uid, bio, l);
    Person(pid, T(SecretA(h, uid, pw, bio, l), k.Pk()) % k.N(), AuthTag(h, k, pw, pid))
  }

  /** The row of a registration, from the credentials: the hash of identity, enrolment number and biometric as
      name, the secret's image as tag, and the hashed password bound to the name as authenticator. */
  ghost predicate IsEnrolment(h: Hash, sk: nat, pk: nat, n: nat, uid: nat, pw: nat, bio: nat, l: nat, secretA: nat, row: Person) {
    && n > 0 && row.name == h(Cat3(uid, l, bio)) && row.tag == T(secretA, pk) % n
    && row.auth == h(Cat3(sk, h(Cat(pw, sk)), row.name))
  }

  datatype AuthResult = Accepted(secret: nat, qid: nat) | Rejected(code: int)

  /** The centre's verdict on an authentication request. */
  function AuthVerdict(h: Hash, k: Keys, people: seq<Person>, qid: nat, qpw: nat, qa: nat, hm: nat): AuthResult
    requires k.N() > 0
  {
    var n := k.N();
    var pid, a := T(k.e, qid) % n, T(k.e, qa) % n;
    var row := Lookup(people, pid);
    if h(Cat3(qid, qpw, qa)) != hm then Rejected(-1)
    else if row.None? then Rejected(-2)
    else if T(a, k.Pk()) % n != row.value.tag then Rejected(-1)
    else if row.value.auth != AuthTag(h, k, T(k.e, qpw) % n, pid) then Rejected(-1)
    else Accepted(a, qid)
  }

  /** The secret the centre holds after a request: the one recovered from it as soon as digest, pseudonym and
      tag pass, even if the password is then refused. */
  function KeptSecret(h: Hash, k: Keys, people: seq<Person>, qid: nat, qpw: nat, qa: nat, hm: nat, held: nat): nat
    requires k.N() > 0
  {
    var a, row := T(k.e, qa) % k.N(), Lookup(people, T(k.e, qid) % k.N());
    if h(Cat3(qid, qpw, qa)) == hm && row.Some? && T(a, k.Pk()) % k.N() == row.value.tag then a else held
  }

  /** What the centre decides, told without the two functions above, for the row that is the first of the recovered
      pseudonym: a digest that does not match, an unknown pseudonym and a foreign A are refused and leave the
      secret alone; a wrong password is refused with the secret replaced. */
  ghost predicate Decided(h: Hash, sk: nat, e: nat, pk: nat, n: nat, people: seq<Person>, qid: nat, qpw: nat, qa: nat,
                          hm: nat, held: nat, r: AuthResult, secret: nat)
  {
    && n > 0
    && var pid: nat, a: nat, pw: nat := T(e, qid) % n, T(e, qa) % n, T(e, qpw) % n;
       && (hm != h(Cat3(qid, qpw, qa)) ==> r == Rejected(-1) && secret == held)
       && (hm == h(Cat3(qid, qpw, qa)) && (forall i :: 0 <= i < |people| ==> people[i].name != pid) ==>
             r == Rejected(-2) && secret == held)
       && (forall i :: hm == h(Cat3(qid, qpw, qa)) && FirstRow(people, pid, i) ==>
             if T(a, pk) % n != people[i].tag then r == Rejected(-1) && secret == held
             else if people[i].auth != h(Cat3(sk, h(Cat(pw, sk)), pid)) then r == Rejected(-1) && secret == a
             else r == Accepted(a, qid) && secret == a)
       && (r.Accepted? ==> hm == h(Cat3(qid, qpw, qa)) && exists i :: FirstRow(people, pid, i))
  }

  lemma DecidedIs(h: Hash, k: Keys, people: seq<Person>, qid: nat, qpw: nat, qa: nat, hm: nat, held: nat)
    requires k.N() > 0
    ensures Decided(h, k.sk, k.e, k.Pk(), k.N(), people, qid, qpw, qa, hm, held,
                    AuthVerdict(h, k, people, qid, qpw, qa, hm), KeptSecret(h, k, people, qid, qpw, qa, hm, held))
  {
    hide T, Cat, Cat3, Lookup, FirstRow;
    LookupSpec(people, T(k.e, qid) % k.N());
  }

  /** The check both ends make on the three exchanged Chebyshev values. */
  predicate NonceCheck(ta: int, tb: int, tc: int, n: int)
    requires n > 0
  {
    (ta * ta + tb * tb + tc * tc) % n == (2 * ta * tb * tc + 1) % n
  }

  // ----- the two classes -----

  class AuthenCenter {
    const h: Hash
    const k: Keys
    const pk: nat
    var people: seq<Person>
    var secret: nat
    var a: nat
    var qid: nat

    ghost predicate Valid()
      reads this
    {
      k.N() > 0 && pk == k.Pk()
    }

    constructor (h: Hash, k: Keys)
      requires k.N() > 0
      ensures Valid() && this.h == h && this.k == k && people == []
      ensures pk == T(k.sk, k.x) % (k.p * k.q)
    {
      var pub := ChebyshevMatrix(k.sk, k.x, k.N());
      this.h, this.k, this.pk, this.people := h, k, pub, [];
      this.secret, this.a, this.qid := 0, 0, 0;
    }

    /** Registration returns the device's parameters; the inverse is missing when e shares a factor
        with the order. */
    method UserRegister(uid: nat, pw: nat, bio: nat, l: nat) returns (secretA: nat, d: Option<nat>)
      requires Valid() && Order(k.p, k.q) > 0
      modifies this`people
      ensures people == old(people) + [Enrolment(h, k, uid, pw, bio, l)]
      ensures secretA == SecretA(h, uid, pw, bio, l)
      ensures d == ModInverse(k.e, Order(k.p, k.q))
      ensures secretA == Xor(h(Cat3(uid, pw, bio)), l)
      ensures |people| == |old(people)| + 1 && people[..|old(people)|] == old(people)
      ensures IsEnrolment(h, k.sk, pk, k.N(), uid, pw, bio, l, secretA, people[|old(people)|])
    {
      hide T, Cat, Cat3, Xor, ModInverse, Order;
      var pid := h(Cat3(uid, l, bio));
      var rpw := h(Cat(pw, k.sk));
      secretA := Xor(h(Cat3(uid, pw, bio)), l);
      d := ModInverse(k.e, Order(k.p, k.q));
      var ttg := ChebyshevMatrix(secretA, pk, k.N());
      people := people + [Person(pid, ttg, h(Cat3(k.sk, rpw, pid)))];
    }

    /** The four verdicts: a digest that does not match, an unknown pseudonym, a foreign A, and then the
        password. The secret is replaced as soon as the third check has passed, and never before. */
    method UserAuth(QID: nat, qpw: nat, qa: nat, hm: nat) returns (r: AuthResult)
      requires Valid()
      modifies this`secret
      ensures hm != h(Cat3(QID, qpw, qa)) ==> r == Rejected(-1) && secret == old(secret)
      ensures Decided(h, k.sk, k.e, pk, k.N(), people, QID, qpw, qa, hm, old(secret), r, secret)
      ensures r == AuthVerdict(h, k, people, QID, qpw, qa, hm)
      ensures secret == KeptSecret(h, k, people, QID, qpw, qa, hm, old(secret))
    {
      hide T, Cat, Cat3, Lookup, Decided;
      DecidedIs(h, k, people, QID, qpw, qa, hm, secret);
      if h(Cat3(QID, qpw, qa)) != hm {
        return Rejected(-1);
      }
      var pid := ChebyshevMatrix(k.e, QID, k.N());
      var a1 := ChebyshevMatrix(k.e, qa, k.N());
      var aa := ChebyshevMatrix(a1, pk, k.N());
      var row := Lookup(people, pid);
      if row.None? {
        return Rejected(-2);
      }
      if aa != row.value.tag {
        return Rejected(-1);
      }
      secret := a1;
      var pw := ChebyshevMatrix(k.e, qpw, k.N());
      if row.value.auth != h(Cat3(k.sk, h(Cat(pw, k.sk)), pid)) {
        return Rejected(-1);
      }
      r := Accepted(a1, QID);
    }

    method SharedKeyGen(QID: nat, secretA: nat, nonce: nat) returns (qid1: nat, n1: nat, hm2: nat)
      requires Valid()
      modifies this`a, this`qid
      ensures a == nonce && qid == QID
      ensures var mask := T(secretA, pk) % k.N();
              qid1 == Xor(QID, mask) && n1 == Xor(mask, nonce) && hm2 == h(Cat(qid1, n1))
    {
      var ttg := ChebyshevMatrix(secretA, pk, k.N());
      a := nonce;
      n1 := Xor(ttg, nonce);
      qid1 := Xor(QID, ttg);
      qid := QID;
      hm2 := h(Cat(qid1, n1));
    }

    /** Accepts or rejects the device's answer, and derives the session key. */
    method SharedKeyGen2(n2: nat, tc: nat, qid2: nat, hm3: nat)
      returns (ok: bool, tc1: nat, ks: nat, qid3: nat, hm5: nat)
      requires Valid()
      ensures var n := k.N(); var mask := T(secret, pk) % n; var b1 := Xor(mask, n2);
              && ok == (&& h(Cat3(n2, tc, qid2)) == hm3 && T(k.e, qid2) % n == qid
                        && NonceCheck(T(a, pk) % n, T(b1, pk) % n, tc, n))
              && (ok ==> && tc1 == T(a + b1, pk) % n && ks == h(Cat3(a, b1, mask))
                         && qid3 == Xor(qid2, mask) && hm5 == h(Cat(tc1, qid3)))
    {
      ok, tc1, ks, qid3, hm5 := false, 0, 0, 0, 0;
      if h(Cat3(n2, tc, qid2)) != hm3 {
        return;
      }
      var mask := ChebyshevMatrix(secret, pk, k.N());
      var b1 := Xor(mask, n2);
      var back := ChebyshevMatrix(k.e, qid2, k.N());
      if back != qid {
        return;
      }
      var ta := ChebyshevMatrix(a, pk, k.N());
      var tb := ChebyshevMatrix(b1, pk, k.N());
      if !NonceCheck(ta, tb, tc, k.N()) {
        return;
      }
      qid3 := Xor(qid2, mask);
      tc1 := ChebyshevMatrix(a + b1, pk, k.N());
      ks := h(Cat3(a, b1, mask));
      hm5 := h(Cat(tc1, qid3));
      ok := true;
    }
  }

  /** Result of the device's self-check: the request, a failed check, or a missing key. */
  datatype Request = Request(qid: nat, qpw: nat, qa: nat) | SelfCheckFailed | NoKey

  class User {
    const h: Hash
    var secretA: nat
    var d: Option<nat>
    var N: nat
    var pk: nat
    var l: nat
    var pid: nat
    var qid: nat
    var tmpa1: nat
    var b: nat
    var ta1: nat
    var tb: nat
    var a: Option<nat>

    constructor (h: Hash)
      ensures this.h == h && a == None && d == None
    {
      this.h := h;
      secretA, d, N, pk, l := 0, None, 0, 0, 0;
      pid, qid, tmpa1, b, ta1, tb, a := 0, 0, 0, 0, 0, 0, None;
    }

    /** The device has sent its enciphered pseudonym. */
    ghost predicate Sent(pid: nat)
      reads this
    {
      d.Some? && N > 0 && qid == T(d.value, pid) % N
    }

    method RegisterProc(secretA: nat, d: Option<nat>, N: nat, pk: nat, l: nat)
      modifies this`secretA, this`d, this`N, this`pk, this`l
      ensures this.secretA == secretA && this.d == d && this.N == N && this.pk == pk && this.l == l
    {
      this.secretA, this.d, this.N, this.pk, this.l := secretA, d, N, pk, l;
    }

    method AuthPre(uid: nat, pw: nat, bio: nat) returns (r: Request)
      requires N > 0
      modifies this`pid, this`qid
      ensures SecretA(h, uid, pw, bio, l) != secretA ==> r == SelfCheckFailed
      ensures SecretA(h, uid, pw, bio, l) == secretA && d.None? ==> r == NoKey
      ensures SecretA(h, uid, pw, bio, l) == secretA && d.Some? ==>
                && r == Request(T(d.value, Pid(h, uid, bio, l)) % N, T(d.value, pw) % N, T(d.value, secretA) % N)
                && pid == Pid(h, uid, bio, l) && qid == r.qid
      ensures var a, p: nat := Xor(h(Cat3(uid, pw, bio)), l), h(Cat3(uid, l, bio));
              if a != secretA then r == SelfCheckFailed && pid == old(pid) && qid == old(qid)
              else if d.None? then r == NoKey && pid == p && qid == old(qid)
              else r == Request(T(d.value, p) % N, T(d.value, pw) % N, T(d.value, a) % N) && pid == p && qid == r.qid
    {
      var pid1 := h(Cat3(uid, l, bio));
      var a1 := Xor(h(Cat3(uid, pw, bio)), l);
      if a1 != secretA {
        return SelfCheckFailed;
      }
      pid := pid1;
      if d.None? {
        return NoKey;
      }
      qid := ChebyshevMatrix(d.value, pid1, N);
      var qpw := ChebyshevMatrix(d.value, pw, N);
      var qa := ChebyshevMatrix(d.value, a1, N);
      r := Request(qid, qpw, qa);
    }

    /** The device reports a failed check but goes on; both verdicts are returned. */
    method SharedKeyGen(qid1: nat, n1: nat, hm2: nat, nonce: nat)
      returns (intact: bool, matches: bool, n2: nat, tc: nat, qid2: nat, hm3: nat)
      requires N > 0 && d.Some?
      modifies this`tmpa1, this`b, this`ta1, this`tb
      ensures var mask := T(secretA, pk) % N;
              && intact == (hm2 == h(Cat(qid1, n1))) && matches == (Xor(qid1, mask) == qid)
              && tmpa1 == Xor(n1, mask) && b == nonce && n2 == Xor(mask, nonce)
              && tc == T(tmpa1 + nonce, pk) % N && ta1 == T(tmpa1, pk) % N && tb == T(nonce, pk) % N
              && qid2 == T(d.value, qid) % N && hm3 == h(Cat3(n2, tc, qid2))
    {
      intact := hm2 == h(Cat(qid1, n1));
      var mask := ChebyshevMatrix(secretA, pk, N);
      matches := Xor(qid1, mask) == qid;
      tmpa1 := Xor(n1, mask);
      b := nonce;
      n2 := Xor(mask, nonce);
      tc := ChebyshevMatrix(tmpa1 + nonce, pk, N);
      ta1 := ChebyshevMatrix(tmpa1, pk, N);
      tb := ChebyshevMatrix(nonce, pk, N);
      qid2 := ChebyshevMatrix(d.value, qid, N);
      hm3 := h(Cat3(n2, tc, qid2));
    }

    /** The key is missing when no nonce was ever accepted, and stale when this one was not. */
    method SharedKeyGen2(tc1: nat, qid3: nat, hm5: nat) returns (intact: bool, agreed: bool, ks: Option<nat>)
      requires N > 0
      modifies this`a, this`tmpa1
      ensures intact == (hm5 == h(Cat(tc1, qid3)))
      ensures agreed == NonceCheck(ta1, tb, tc1, N)
      ensures a == if agreed then Some(old(tmpa1)) else old(a)
      ensures ks == if a.None? then None else Some(h(Cat3(a.value, b, T(secretA, pk) % N)))
    {
      intact := hm5 == h(Cat(tc1, qid3));
      agreed := NonceCheck(ta1, tb, tc1, N);
      if agreed {
        a := Some(tmpa1);
      } else {
        tmpa1 := 0;
      }
      var aa := ChebyshevMatrix(secretA, pk, N);
      ks := if a.None? then None else Some(h(Cat3(a.value, b, aa)));
    }
  }

  // ----- the honest run -----

  /** T_e undoes T_d on residues, for the pair the centre issues. */
  lemma IssuedPairInverts(k: Keys, v: nat)
    requires k.Good() && v < k.N()
    ensures T(k.e, T(ModInverse(k.e, Order(k.p, k.q)).value, v) % k.N()) % k.N() == v
  {
    var d := ModInverse(k.e, Order(k.p, k.q)).value;
    OrderLarge(k.p, k.q);
    ModSmall(1, Order(k.p, k.q));
    Recovery(k.p, k.q, k.e, d, v);
    ModSmall(v, k.N());
  }

  /** The verdict on an enrolled device's request, whatever password it sends: accepted exactly when the stored
      authenticator cannot tell that password from the enrolled one. The secret is replaced in either case. */
  lemma PasswordVerdict(h: Hash, k: Keys, people: seq<Person>, uid: nat, pw: nat, bio: nat, l: nat, sent: nat)
    requires k.Good() && k.N() > 0
    requires Lookup(people, Pid(h, uid, bio, l)) == Some(Enrolment(h, k, uid, pw, bio, l))
    requires Pid(h, uid, bio, l) < k.N() && SecretA(h, uid, pw, bio, l) < k.N() && sent < k.N()
    ensures var d, n, s := ModInverse(k.e, Order(k.p, k.q)).value, k.N(), SecretA(h, uid, pw, bio, l);
            var pid := Pid(h, uid, bio, l);
            var qid, qpw, qa := T(d, pid) % n, T(d, sent) % n, T(d, s) % n;
            && AuthVerdict(h, k, people, qid, qpw, qa, h(Cat3(qid, qpw, qa)))
               == (if AuthTag(h, k, sent, pid) == AuthTag(h, k, pw, pid) then Accepted(s, qid) else Rejected(-1))
            && forall held :: KeptSecret(h, k, people, qid, qpw, qa, h(Cat3(qid, qpw, qa)), held) == s
  {
    hide AuthTag, T, Cat3, ModInverse;
    IssuedPairInverts(k, Pid(h, uid, bio, l));
    IssuedPairInverts(k, sent);
    IssuedPairInverts(k, SecretA(h, uid, pw, bio, l));
  }

  /** The centre accepts the request a registered device makes with its own credentials. */
  lemma HonestAuth(h: Hash, k: Keys, people: seq<Person>, uid: nat, pw: nat, bio: nat, l: nat)
    requires k.Good() && k.N() > 0
    requires Lookup(people, Pid(h, uid, bio, l)) == Some(Enrolment(h, k, uid, pw, bio, l))
    requires Pid(h, uid, bio, l) < k.N() && SecretA(h, uid, pw, bio, l) < k.N() && pw < k.N()
    ensures var d, n, s := ModInverse(k.e, Order(k.p, k.q)).value, k.N(), SecretA(h, uid, pw, bio, l);
            var qid, qpw, qa := T(d, Pid(h, uid, bio, l)) % n, T(d, pw) % n, T(d, s) % n;
            && AuthVerdict(h, k, people, qid, qpw, qa, h(Cat3(qid, qpw, qa))) == Accepted(s, qid)
            && forall held :: KeptSecret(h, k, people, qid, qpw, qa, h(Cat3(qid, qpw, qa)), held) == s
  {
    hide AuthVerdict, KeptSecret, T, Cat3, ModInverse;
    PasswordVerdict(h, k, people, uid, pw, bio, l, pw);
  }

  /** A request refused for its password that replaces the secret: p == 3, q == 5, the enrolled password 1, the
      sent one 2, and a hash that separates them. */
  lemma RefusedRequest(k: Keys, h: Hash, people: seq<Person>, held: nat)
    requires k == Keys(3, 5, 2, 7, 5) && h == ((x: nat) => if x == 27 || x == 710 then 1 else 0)
    requires people == [Enrolment(h, k, 1, 1, 1, 0)]
    ensures k.Good() && var d := ModInverse(5, 192).value; var qid, qpw, qa := T(d, 0) % 15, T(d, 2) % 15, T(d, 0) % 15;
            && AuthVerdict(h, k, people, qid, qpw, qa, h(Cat3(qid, qpw, qa))) == Rejected(-1)
            && KeptSecret(h, k, people, qid, qpw, qa, h(Cat3(qid, qpw, qa)), held) == 0
  {
    hide T, ModInverse, AuthVerdict, KeptSecret, Prime;
    assert Prime(3) && Prime(5) by { SmallPrimes(); }
    InverseExists(5, 192, 77);
    assert Cat3(1, 0, 1) == 101 && Cat3(1, 1, 1) == 111 && Cat(1, 7) == 17 && Cat(2, 7) == 27;
    assert Cat3(7, 0, 0) == 700 && Cat3(7, 1, 0) == 710;
    assert Pid(h, 1, 1, 0) == 0 && SecretA(h, 1, 1, 1, 0) == 0;
    assert AuthTag(h, k, 1, 0) == 0 && AuthTag(h, k, 2, 0) == 1;
    PasswordVerdict(h, k, people, 1, 1, 1, 0, 2);
  }

  lemma SmallPrimes()
    ensures Prime(3) && Prime(5)
  {
    assert 3 % 2 != 0 && 5 % 2 != 0 && 5 % 3 != 0 && 5 % 4 != 0;
  }

  /** Exactly which third values pass the nonce check: those whose offsets from T_{a+b} and
      T_{|a-b|} multiply to 0 modulo n. */
  lemma NonceCheckExact(a: nat, b: nat, x: int, tc: int, n: int)
    requires n > 0
    ensures var diff := if a >= b then a - b else b - a;
            NonceCheck(T(a, x) % n, T(b, x) % n, tc, n) <==> Cong((tc - T(a + b, x)) * (tc - T(diff, x)), 0, n)
  {
    var diff := if a >= b then a - b else b - a;
    var ta, tb, s, t := T(a, x), T(b, x), T(a + b, x), T(diff, x);
    SumAndDifference(a, b, x);
    NonceReduce(ta, tb, tc, n);
    var lhs, rhs := ta * ta + tb * tb + tc * tc, 2 * ta * tb * tc + 1;
    assert lhs - rhs == (tc - s) * (tc - t) by {
      NonceAlgebra(ta, tb, tc, s, t);
    }
    if Cong(lhs, rhs, n) {
      CongSub(lhs, rhs, rhs, rhs, n);
    }
    if Cong(lhs - rhs, 0, n) {
      CongAdd(lhs - rhs, 0, rhs, rhs, n);
    }
  }

  lemma SumAndDifference(a: nat, b: nat, x: int)
    ensures var diff := if a >= b then a - b else b - a;
            && T(a + b, x) + T(diff, x) == 2 * (T(a, x) * T(b, x))
            && T(a + b, x) * T(diff, x) == T(a, x) * T(a, x) + T(b, x) * T(b, x) - 1
    decreases a < b
  {
    if a < b {
      SumAndDifference(b, a, x);
    } else {
      Difference(a, b, x);
      Addition(a, b, x);
      Norm(a, x);
      Norm(b, x);
      ProductAlgebra(D(x), T(a, x), U(a, x), T(b, x), U(b, x));
    }
  }

  lemma Difference(a: nat, b: nat, x: int)
    requires a >= b
    ensures T(a - b, x) == T(a, x) * T(b, x) - D(x) * (U(a, x) * U(b, x))
  {
    var c := a - b;
    Addition(b, c, x);
    Norm(b, x);
    DifferenceAlgebra(D(x), T(a, x), U(a, x), T(b, x), U(b, x), T(c, x), U(c, x));
  }

  lemma DifferenceAlgebra(d: int, ta: int, ua: int, tb: int, ub: int, tc: int, uc: int)
    requires ta == tb * tc + d * (ub * uc) && ua == tb * uc + ub * tc && tb * tb - d * (ub * ub) == 1
    ensures ta * tb - d * (ua * ub) == tc
  {
    assert ta * tb == (tb * tb) * tc + d * (ub * uc * tb) by {
      assert (tb * tc) * tb == (tb * tb) * tc;
      assert (d * (ub * uc)) * tb == d * (ub * uc * tb);
    }
    assert d * (ua * ub) == d * (ub * uc * tb) + (d * (ub * ub)) * tc by {
      assert ua * ub == ub * uc * tb + (ub * ub) * tc by {
        assert (tb * uc) * ub == ub * uc * tb;
        assert (ub * tc) * ub == (ub * ub) * tc;
      }
      assert d * ((ub * ub) * tc) == (d * (ub * ub)) * tc;
    }
    assert (tb * tb) * tc - (d * (ub * ub)) * tc == (tb * tb - d * (ub * ub)) * tc;
  }

  lemma ProductAlgebra(d: int, ta: int, ua: int, tb: int, ub: int)
    requires ta * ta - d * (ua * ua) == 1 && tb * tb - d * (ub * ub) == 1
    ensures (ta * tb + d * (ua * ub)) * (ta * tb - d * (ua * ub)) == ta * ta + tb * tb - 1
  {
    var p, q, s, t := ta * tb, d * (ua * ub), ta * ta, tb * tb;
    assert (p + q) * (p - q) == p * p - q * q;
    assert q * q == (s - 1) * (t - 1) by { FourFactors(d, ua, ub); }
    assert p * p == s * t by { FourFactors(1, ta, tb); }
    assert (s - 1) * (t - 1) == s * t - s - t + 1;
  }

  lemma NonceAlgebra(ta: int, tb: int, tc: int, s: int, t: int)
    requires s + t == 2 * (ta * tb) && s * t == ta * ta + tb * tb - 1
    ensures ta * ta + tb * tb + tc * tc - (2 * ta * tb * tc + 1) == (tc - s) * (tc - t)
  {
    assert (tc - s) * (tc - t) == tc * tc - (s + t) * tc + s * t;
    assert (2 * (ta * tb)) * tc == 2 * ta * tb * tc;
  }

  lemma NonceReduce(ta: int, tb: int, tc: int, n: int)
    requires n > 0
    ensures NonceCheck(ta % n, tb % n, tc, n) == NonceCheck(ta, tb, tc, n)
  {
    CongMod(ta, n);
    CongMod(tb, n);
    CongMul(ta % n, ta, ta % n, ta, n);
    CongMul(tb % n, tb, tb % n, tb, n);
    CongAdd((ta % n) * (ta % n), ta * ta, (tb % n) * (tb % n), tb * tb, n);
    CongAdd((ta % n) * (ta % n) + (tb % n) * (tb % n), ta * ta + tb * tb, tc * tc, tc * tc, n);
    CongMul(2, 2, ta % n, ta, n);
    CongMul(2 * (ta % n), 2 * ta, tb % n, tb, n);
    CongMul(2 * (ta % n) * (tb % n), 2 * ta * tb, tc, tc, n);
    CongAdd(2 * (ta % n) * (tb % n) * tc, 2 * ta * tb * tc, 1, 1, n);
  }

  /** In particular the honest third value passes. */
  lemma HonestNonce(a: nat, b: nat, x: int, n: int)
    requires n > 0
    ensures NonceCheck(T(a, x) % n, T(b, x) % n, T(a + b, x) % n, n)
  {
    NonceCheckExact(a, b, x, T(a + b, x) % n, n);
    CongMod(T(a + b, x), n);
    CongSub(T(a + b, x) % n, T(a + b, x), T(a + b, x), T(a + b, x), n);
    var t := T(if a >= b then a - b else b - a, x);
    CongMul(T(a + b, x) % n - T(a + b, x), 0, T(a + b, x) % n - t, T(a + b, x) % n - t, n);
  }

  /** So does T_{|a-b|}, which is another value. */
  lemma DifferencePasses(a: nat, b: nat, x: int, n: int)
    requires n > 0
    ensures NonceCheck(T(a, x) % n, T(b, x) % n, T(if a >= b then a - b else b - a, x) % n, n)
  {
    hide T, NonceCheck;
    var s, t := T(a + b, x), T(if a >= b then a - b else b - a, x);
    NonceCheckExact(a, b, x, t % n, n);
    CongMod(t, n);
    CongSub(t % n, t, t, t, n);
    CongMul(t % n - s, t % n - s, t % n - t, 0, n);
  }

  /** For instance a == 2, b == 1, x == 2 modulo 5 * 7: the check takes 2 for 26. */
  lemma DifferenceExample()
    ensures NonceCheck(T(2, 2) % 35, T(1, 2) % 35, 2, 35) && T(2 + 1, 2) % 35 == 26
  {
    DifferencePasses(2, 1, 2, 35);
    assert T(1, 2) == 2 && T(2, 2) == 7 && T(3, 2) == 26;
  }

  lemma {:induction false} XorComm(a: nat, b: nat)
    ensures Xor(a, b) == Xor(b, a)
    decreases a + b
  {
    if a != 0 || b != 0 {
      XorComm(a / 2, b / 2);
    }
  }

  /** What the two ends read out of each other's masked messages. */
  lemma HonestExchange(k: Keys, mask: nat, qid: nat, a: nat, b: nat)
    requires k.Good() && k.N() > 0 && qid < k.N()
    ensures Xor(Xor(qid, mask), mask) == qid
    ensures Xor(Xor(mask, a), mask) == a
    ensures Xor(mask, Xor(mask, b)) == b
    ensures T(k.e, T(ModInverse(k.e, Order(k.p, k.q)).value, qid) % k.N()) % k.N() == qid
    ensures NonceCheck(T(a, k.Pk()) % k.N(), T(b, k.Pk()) % k.N(), T(a + b, k.Pk()) % k.N(), k.N())
  {
    XorCancel(qid, mask);
    XorCancel(a, mask);
    XorCancel(b, mask);
    XorComm(mask, Xor(mask, b));
    IssuedPairInverts(k, qid);
    HonestNonce(a, b, k.Pk(), k.N());
  }

  /** One honest session between a centre in any state that holds the device's enrolment, and the
      device: every check on both sides passes and both ends hold the same session key. */
  method HonestSession(center: AuthenCenter, user: User, uid: nat, pw: nat, bio: nat, a: nat, b: nat)
    returns (allChecks: bool, ksCenter: nat, ksUser: Option<nat>)
    requires Enrolled(center, user, uid, pw, bio)
    modifies center`secret, center`a, center`qid
    modifies user`pid, user`qid, user`tmpa1, user`b, user`ta1, user`tb, user`a
    ensures allChecks
    ensures ksUser == Some(ksCenter)
    ensures ksCenter == center.h(Cat3(a, b, T(user.secretA, center.pk) % user.N))
  {
    hide T, Xor, Cat, Cat3, ModInverse;
    var qid1, n1, hm2 := RequestSession(center, user, uid, pw, bio, a);
    allChecks, ksCenter, ksUser := HonestAnswer(center, user, qid1, n1, hm2, b);
  }

  /** The device's answer to the centre's message, while the centre still holds this session. */
  method HonestAnswer(center: AuthenCenter, user: User, qid1: nat, n1: nat, hm2: nat, b: nat)
    returns (allChecks: bool, ksCenter: nat, ksUser: Option<nat>)
    requires center.Valid() && center.k.Good() && user.h == center.h
    requires user.N == center.k.N() && user.pk == center.pk
    requires user.d == ModInverse(center.k.e, Order(center.k.p, center.k.q))
    requires user.qid < user.N && center.secret == user.secretA && center.qid == user.qid
    requires var mask := T(user.secretA, user.pk) % user.N;
             qid1 == Xor(user.qid, mask) && n1 == Xor(mask, center.a) && hm2 == center.h(Cat(qid1, n1))
    modifies user`tmpa1, user`b, user`ta1, user`tb, user`a
    ensures allChecks
    ensures ksUser == Some(ksCenter)
    ensures ksCenter == center.h(Cat3(center.a, b, T(user.secretA, center.pk) % user.N))
  {
    hide NonceCheck, T, Xor, Cat, Cat3, ModInverse;
    HonestExchange(center.k, T(user.secretA, user.pk) % user.N, user.qid, center.a, b);
    var intact, matches, n2, tc, qid2, hm3 := user.SharedKeyGen(qid1, n1, hm2, b);
    var ok, tc1, ks, qid3, hm5 := center.SharedKeyGen2(n2, tc, qid2, hm3);
    var intact2, agreed, kd := user.SharedKeyGen2(tc1, qid3, hm5);
    allChecks, ksCenter, ksUser := intact && matches && ok && intact2 && agreed, ks, kd;
  }

  /** A device that holds the parameters of its enrolment at this centre. */
  ghost predicate Enrolled(center: AuthenCenter, user: User, uid: nat, pw: nat, bio: nat)
    reads center, user
  {
    && center.Valid() && center.k.Good() && user.h == center.h
    && user.N == center.k.N() && user.pk == center.pk
    && user.d == ModInverse(center.k.e, Order(center.k.p, center.k.q))
    && user.secretA == SecretA(center.h, uid, pw, bio, user.l)
    && Lookup(center.people, Pid(center.h, uid, bio, user.l))
       == Some(Enrolment(center.h, center.k, uid, pw, bio, user.l))
    && Pid(center.h, uid, bio, user.l) < user.N && user.secretA < user.N && pw < user.N
  }

  /** Authentication of an enrolled device, answered with the centre's first message of a session. */
  method RequestSession(center: AuthenCenter, user: User, uid: nat, pw: nat, bio: nat, nonce: nat)
    returns (qid1: nat, n1: nat, hm2: nat)
    requires Enrolled(center, user, uid, pw, bio)
    modifies center`secret, center`a, center`qid, user`pid, user`qid
    ensures Enrolled(center, user, uid, pw, bio)
    ensures user.pid == Pid(center.h, uid, bio, user.l) && user.qid == T(user.d.value, user.pid) % user.N
    ensures center.secret == user.secretA && center.qid == user.qid && center.a == nonce
    ensures var mask := T(user.secretA, user.pk) % user.N;
            qid1 == Xor(user.qid, mask) && n1 == Xor(mask, nonce) && hm2 == center.h(Cat(qid1, n1))
  {
    hide T, Xor, Cat, Cat3, ModInverse, AuthVerdict, KeptSecret;
    HonestAuth(center.h, center.k, center.people, uid, pw, bio, user.l);
    var req := user.AuthPre(uid, pw, bio);
    var hm1 := center.h(Cat3(req.qid, req.qpw, req.qa));
    var verdict := center.UserAuth(req.qid, req.qpw, req.qa, hm1);
    qid1, n1, hm2 := center.SharedKeyGen(verdict.qid, verdict.secret, nonce);
  }

  /** Two sessions interleaved at the centre, which keeps the state of one. The first device has asked and holds
      its message of the centre, whatever that is; a second one asks before the first has answered. The first
      one's honest answer is then refused, unless the two sent the same enciphered pseudonym (see
      DifferentRequests), and the second session succeeds. */
  method InterleavedSessions(center: AuthenCenter, first: User, qid1: nat, n1: nat, hm2: nat, b: nat,
                             second: User, uid: nat, pw: nat, bio: nat, a': nat, b': nat)
    returns (firstOk: bool, secondOk: bool, ksCenter: nat, ksUser: Option<nat>)
    requires first != second && Enrolled(center, second, uid, pw, bio)
    requires first.h == second.h && first.N == second.N && first.pk == second.pk && first.d == second.d
    requires first.qid < first.N
    modifies center`secret, center`a, center`qid, first, second
    ensures first.qid == old(first.qid) && second.Sent(Pid(center.h, uid, bio, second.l))
    ensures first.qid != second.qid ==> !firstOk
    ensures secondOk && ksUser == Some(ksCenter)
  {
    hide T, Xor, Cat, Cat3, ModInverse, NonceCheck, Enrolment, SecretA;
    var qid1', n1', hm2' := RequestSession(center, second, uid, pw, bio, a');
    IssuedPairInverts(center.k, first.qid);
    var _, _, n2, tc, qid2, hm3 := first.SharedKeyGen(qid1, n1, hm2, b);
    var ok, _, _, _, _ := center.SharedKeyGen2(n2, tc, qid2, hm3);
    firstOk := ok;
    secondOk, ksCenter, ksUser := HonestAnswer(center, second, qid1', n1', hm2', b');
  }

  /** Devices with different pseudonyms send different enciphered ones. */
  lemma DifferentRequests(k: Keys, pid: nat, pid': nat)
    requires k.Good() && pid < k.N() && pid' < k.N() && pid != pid'
    ensures var d := ModInverse(k.e, Order(k.p, k.q)).value; T(d, pid) % k.N() != T(d, pid') % k.N()
  {
    hide T, ModInverse;
    IssuedPairInverts(k, pid);
    IssuedPairInverts(k, pid');
  }

  /** Registration of a new device followed by a session. The only facts needed about the values are
      that the centre's pair is invertible, the pseudonym is new, and the three sent values are residues. */
  method HonestRun(center: AuthenCenter, uid: nat, pw: nat, bio: nat, l: nat, a: nat, b: nat)
    returns (allChecks: bool, ksCenter: nat, ksUser: Option<nat>)
    requires center.Valid() && center.k.Good()
    requires Lookup(center.people, Pid(center.h, uid, bio, l)).None?
    requires Pid(center.h, uid, bio, l) < center.k.N() && SecretA(center.h, uid, pw, bio, l) < center.k.N()
    requires pw < center.k.N()
    modifies center
    ensures allChecks
    ensures ksUser == Some(ksCenter)
    ensures center.people == old(center.people) + [Enrolment(center.h, center.k, uid, pw, bio, l)]
  {
    LookupAppend(center.people, Enrolment(center.h, center.k, uid, pw, bio, l), Pid(center.h, uid, bio, l));
    var secretA, d := center.UserRegister(uid, pw, bio, l);
    var user := new User(center.h);
    user.RegisterProc(secretA, d, center.k.N(), center.pk, l);
    allChecks, ksCenter, ksUser := HonestSession(center, user, uid, pw, bio, a, b);
  }
}
