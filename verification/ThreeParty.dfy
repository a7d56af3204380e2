/** The three-party exchange of the comparison script: A and B agree on a key with the help of S. */
module ThreeParty {
  import opened Chebyshev
  import opened Matrix
  import opened Protocol

  /** The keys and authenticators computed at the three ends. */
  datatype Transcript = Transcript(
    kab: nat, kba: nat, kas: nat, ksa: nat, kbs: nat, ksb: nat,
    uas: nat, usa: nat, ubs: nat, usb: nat, uba: nat, uab: nat, sk: nat, sk2: nat)

  function Cat5(a: nat, b: nat, c: nat, d: nat, e: nat): nat { Cat(Cat(Cat3(a, b, c), d), e) }

  /** Masked by its own verifier, unmasked again, the server's share yields the same two secrets
      on both ends. */
  lemma ServerKeysAgree(a: nat, t: nat, c: nat, x: nat, p: nat)
    requires p > 0
    ensures var v, xa, tc: nat := T(t, x) % p, T(a, x) % p, T(c, x) % p;
            && Xor(Xor(tc, v), v) == tc
            && Xor(T(a, tc) % p, T(t, tc) % p) == Xor(T(c, v) % p, T(c, xa) % p)
            && Xor(T(a, tc) % p, T(t, tc) % p) == Xor(T(a * c, x) % p, T(t * c, x) % p)
  {
    XorCancel(T(c, x) % p, T(t, x) % p);
    Commutes(a, c, x, p);
    Commutes(t, c, x, p);
    XorComm(T(a, T(c, x) % p) % p, T(t, T(c, x) % p) % p);
  }

  /** Every pair of keys meant to be shared agrees, and so do the authenticators and session keys
      derived from them. Either end of A and B can recompute the authenticator of the other. */
  method Exchange(h: Hash, p: nat, x: nat, idS: nat, idA: nat, idB: nat, piA: nat, piB: nat,
                  a: nat, b: nat, c: nat, d: nat)
    returns (r: Transcript)
    requires p > 0
    ensures r.kab == r.kba == T(a * b, x) % p
    ensures r.kas == r.ksa == Xor(T(a * c, x) % p, T(h(Cat3(idA, idS, piA)) * c, x) % p)
    ensures r.kbs == r.ksb == Xor(T(b * d, x) % p, T(h(Cat3(idB, idS, piB)) * d, x) % p)
    ensures var xa: nat, xb: nat := T(a, x) % p, T(b, x) % p;
            && r.uas == r.usa == h(Cat(Cat(Cat3(idA, idS, xa), xb), r.kas))
            && r.ubs == r.usb == h(Cat(Cat(Cat3(idB, idS, xb), xa), r.kbs))
    ensures var xa: nat, xb: nat := T(a, x) % p, T(b, x) % p;
            && r.uba == h(Cat(Cat(Cat3(idB, idA, xb), xa), r.kab))
            && r.uab == h(Cat(Cat(Cat3(idA, idB, xa), xb), r.kab))
            && r.sk == r.sk2 == h(Cat(Cat(Cat(Cat3(idA, idB, idS), xa), xb), r.kab))
  {
    var tA := h(Cat3(idA, idS, piA));
    var tB := h(Cat3(idB, idS, piB));
    var vA := ChebyshevMatrix(tA, x, p);
    var vB := ChebyshevMatrix(tB, x, p);
    var xa := ChebyshevMatrix(a, x, p);
    var xb := ChebyshevMatrix(b, x, p);
    var shareC := ChebyshevMatrix(c, x, p);
    var shareD := ChebyshevMatrix(d, x, p);
    var xsa := Xor(shareC, vA);
    var xsb := Xor(shareD, vB);
    ServerKeysAgree(a, tA, c, x, p);
    ServerKeysAgree(b, tB, d, x, p);
    Commutes(a, b, x, p);

    // B's end
    var td := Xor(xsb, vB);
    var kb1 := ChebyshevMatrix(b, td, p);
    var kb2 := ChebyshevMatrix(tB, td, p);
    var kbs := Xor(kb1, kb2);
    var ubs := h(Cat5(idB, idS, xb, xa, kbs));
    var kba := ChebyshevMatrix(b, xa, p);
    var uba := h(Cat5(idB, idA, xb, xa, kba));
    var sk := h(Cat(Cat5(idA, idB, idS, xa, xb), kba));

    // A's end
    var tc := Xor(xsa, vA);
    var ka1 := ChebyshevMatrix(a, tc, p);
    var ka2 := ChebyshevMatrix(tA, tc, p);
    var kas := Xor(ka1, ka2);
    var uas := h(Cat5(idA, idS, xa, xb, kas));
    var kab := ChebyshevMatrix(a, xb, p);
    // the script takes B's copy of the shared key here
    var uab := h(Cat5(idA, idB, xa, xb, kba));

    // S's end
    var s1 := ChebyshevMatrix(c, vA, p);
    var s2 := ChebyshevMatrix(c, xa, p);
    var ksa := Xor(s1, s2);
    var s3 := ChebyshevMatrix(d, vB, p);
    var s4 := ChebyshevMatrix(d, xb, p);
    var ksb := Xor(s3, s4);
    var usa := h(Cat5(idA, idS, xa, xb, ksa));
    var usb := h(Cat5(idB, idS, xb, xa, ksb));
    var sk2 := h(Cat(Cat5(idA, idB, idS, xa, xb), kab));
    r := Transcript(kab, kba, kas, ksa, kbs, ksb, uas, usa, ubs, usb, uba, uab, sk, sk2);
  }
}
