/** When the text of a message tells its content from the wallet's name. */
module NameMeaning {
  import opened Bytes
  import opened Definition
  import opened MessageText
  import opened MessageMeaning
  import TimestampText

  /** What follows the content in the text. */
  function Tail(name: Bytes): (r: Bytes)
  {
    Ascii(" | wallet: ") + name
  }

  predicate EndsWith(s: Bytes, end: Bytes)
  {
    |end| <= |s| && s[|s| - |end|..] == end
  }

  /** Two names are told apart: neither's text ends with the other's. */
  predicate ToldApart(n1: Bytes, n2: Bytes)
  {
    n1 == n2 || (!EndsWith(Tail(n1), Tail(n2)) && !EndsWith(Tail(n2), Tail(n1)))
  }

  /** Whatever the contents are, equal texts have equal contents and names. */
  ghost predicate Unambiguous(n1: Bytes, n2: Bytes)
  {
    forall c1: Bytes, c2: Bytes :: c1 + Tail(n1) == c2 + Tail(n2) ==> c1 == c2 && n1 == n2
  }

  lemma ShorterEnds(c1: Bytes, c2: Bytes, t1: Bytes, t2: Bytes)
    requires c1 + t1 == c2 + t2 && |c1| <= |c2|
    ensures EndsWith(t1, t2) && (|c1| == |c2| ==> c1 == c2 && t1 == t2)
  {
    assert |c1| + |t1| == |c2| + |t2|;
    assert (c1 + t1)[|c2|..] == t1[|c2| - |c1|..];
    assert (c2 + t2)[|c2|..] == t2;
    if |c1| == |c2| {
      ConcatCancel(c1, c2, t1, t2);
    }
  }

  lemma SameTail(n1: Bytes, n2: Bytes)
    requires Tail(n1) == Tail(n2)
    ensures n1 == n2
  {
    hide Ascii;
    ConcatCancel(Ascii(" | wallet: "), Ascii(" | wallet: "), n1, n2);
  }

  lemma ApartIsUnambiguous(n1: Bytes, n2: Bytes)
    requires ToldApart(n1, n2)
    ensures Unambiguous(n1, n2)
  {
    hide EndsWith, Tail;
    forall c1: Bytes, c2: Bytes | c1 + Tail(n1) == c2 + Tail(n2)
      ensures c1 == c2 && n1 == n2
    {
      if |c1| <= |c2| {
        ShorterEnds(c1, c2, Tail(n1), Tail(n2));
      } else {
        ShorterEnds(c2, c1, Tail(n2), Tail(n1));
      }
      if n1 == n2 {
        assert |c1| == |c2|;
        ConcatCancel(c1, c2, Tail(n1), Tail(n2));
      }
    }
  }

  /** If one name's text ends with the other's, two different contents give one text. */
  lemma EndsCollide(n1: Bytes, n2: Bytes)
    requires n1 != n2 && EndsWith(Tail(n1), Tail(n2))
    ensures !Unambiguous(n1, n2) && !Unambiguous(n2, n1)
  {
    hide Ascii;
    var c := Tail(n1)[..|Tail(n1)| - |Tail(n2)|];
    assert c + Tail(n2) == Tail(n1) == [] + Tail(n1);
  }

  /** Content and name are told apart exactly when neither name's text ends with the other's. */
  lemma ToldApartIff(n1: Bytes, n2: Bytes)
    ensures Unambiguous(n1, n2) <==> ToldApart(n1, n2)
  {
    hide EndsWith, Tail, Unambiguous;
    if ToldApart(n1, n2) {
      ApartIsUnambiguous(n1, n2);
    } else if EndsWith(Tail(n1), Tail(n2)) {
      EndsCollide(n1, n2);
    } else {
      EndsCollide(n2, n1);
    }
  }

  predicate SeparatorAt(s: Bytes, i: nat)
  {
    i + 11 <= |s| && s[i..i + 11] == Ascii(" | wallet: ")
  }

  /** The name's text contains the separator at its beginning only: a condition on one name. */
  predicate Plain(name: Bytes)
  {
    forall i :: 1 <= i <= |name| ==> !SeparatorAt(Tail(name), i)
  }

  lemma TailLength(name: Bytes)
    ensures |Tail(name)| == 11 + |name| && Tail(name)[..11] == Ascii(" | wallet: ")
  {}

  /** Two plain names are always told apart. */
  lemma PlainToldApart(n1: Bytes, n2: Bytes)
    requires Plain(n1) && Plain(n2)
    ensures ToldApart(n1, n2)
  {
    hide Ascii, Tail, Plain, EndsWith;
    if EndsWith(Tail(n1), Tail(n2)) {
      PlainEnds(n1, n2);
    }
    if EndsWith(Tail(n2), Tail(n1)) {
      PlainEnds(n2, n1);
    }
  }

  lemma PlainEnds(n1: Bytes, n2: Bytes)
    requires Plain(n1) && EndsWith(Tail(n1), Tail(n2))
    ensures n1 == n2
  {
    hide Ascii, Tail;
    TailLength(n1);
    TailLength(n2);
    var i := |n1| - |n2|;
    assert Tail(n1)[i..][..11] == Tail(n1)[i..i + 11];
    assert SeparatorAt(Tail(n1), i);
    assert Tail(n1)[0..] == Tail(n1);
    SameTail(n1, n2);
  }

  /** The name contains the separator. */
  predicate HasSeparator(name: Bytes)
  {
    exists i :: 0 <= i <= |name| && SeparatorAt(name, i)
  }

  /** Not to contain the separator is not enough: it ends with the space it begins with. */
  lemma BorderCollide()
    ensures !HasSeparator(Ascii("| wallet: b")) && !HasSeparator(Ascii("b"))
    ensures !Unambiguous(Ascii("| wallet: b"), Ascii("b"))
  {
    var (n1, n2) := (Ascii("| wallet: b"), Ascii("b"));
    assert |n1| == 11 && |n2| == 1 && n1[0] == 0x7c && Ascii(" | wallet: ")[0] == 0x20;
    assert n1[0..11][0] == 0x7c;
    var c1: Bytes := [];
    var c2: Bytes := Ascii(" | wallet:");
    assert c1 + Tail(n1) == c2 + Tail(n2);
  }

  /** For names told apart, messages are equal if and only if content, name, action, index and written expiry are. */
  lemma MessageDeterminesAll(env: Env, c1: Context, c2: Context, d1: Definition, d2: Definition, p1: Bytes, p2: Bytes)
    requires Message(env, c1, d1, p1).Ok? && Message(env, c2, d2, p2).Ok?
    requires ToldApart(c1.walletName, c2.walletName)
    ensures Content(env, d1, p1).Ok? && Content(env, d2, p2).Ok?
    ensures Message(env, c1, d1, p1) == Message(env, c2, d2, p2) <==>
            && c1.(expiry := 0) == c2.(expiry := 0)
            && TimestampText.Text(c1.expiry) == TimestampText.Text(c2.expiry)
            && Content(env, d1, p1) == Content(env, d2, p2)
  {
    hide Message, Content, Ascii, ToldApart, TimestampText.Text;
    MessageDetermines(env, c1, c2, d1, d2, p1, p2);
    ApartIsUnambiguous(c1.walletName, c2.walletName);
    var (x1, x2) := (Content(env, d1, p1).value, Content(env, d2, p2).value);
    assert x1 + Tail(c1.walletName) == x2 + Tail(c2.walletName) ==> x1 == x2 && c1.walletName == c2.walletName;
  }
}
