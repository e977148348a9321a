/**
 The tables of CORBA 3.0 that the constants and per-kind predicates of the other
 modules have to agree with: TypeCode kinds (sections 15.3.1.1 and 15.3.5.1),
 GIOP messages (section 15.4.1) and the two magic texts.
 */
module Standard {
  import opened Cdr
  import opened TypeCodes
  import opened Values
  import opened Giop
  import opened Common
  import HexIor
  import NativeLayout
  import Ior
  import Dispatch

  /** What follows a kind on the wire: nothing, a few words, or an encapsulation. */
  datatype Parameters = Empty | Few | Encapsulated

  /**
   A TypeCode kind: the size of its values, 0 for those built of others; whether
   a union may switch on it; and whether its values in C own memory.
   */
  datatype Entry = Entry(name: string, parameters: Parameters, octets: nat, switches: bool, owns: bool)

  const KINDS: seq<Entry> := [
    Entry("null", Empty, 0, false, false), Entry("void", Empty, 0, false, false),
    Entry("short", Empty, 2, true, false), Entry("long", Empty, 4, true, false),
    Entry("ushort", Empty, 2, true, false), Entry("ulong", Empty, 4, true, false),
    Entry("float", Empty, 4, false, false), Entry("double", Empty, 8, false, false),
    Entry("boolean", Empty, 1, true, false), Entry("char", Empty, 1, true, false),
    Entry("octet", Empty, 1, false, false), Entry("any", Empty, 0, false, true),
    Entry("TypeCode", Empty, 0, false, true), Entry("Principal", Empty, 0, false, true),
    Entry("objref", Encapsulated, 0, false, true), Entry("struct", Encapsulated, 0, false, false),
    Entry("union", Encapsulated, 0, false, false), Entry("enum", Encapsulated, 4, true, false),
    Entry("string", Few, 0, false, true), Entry("sequence", Encapsulated, 0, false, true),
    Entry("array", Encapsulated, 0, false, false), Entry("alias", Encapsulated, 0, false, false),
    Entry("except", Encapsulated, 0, false, false), Entry("longlong", Empty, 8, true, false),
    Entry("ulonglong", Empty, 8, true, false), Entry("longdouble", Empty, 16, false, false),
    Entry("wchar", Empty, 2, true, false), Entry("wstring", Few, 0, false, true),
    Entry("fixed", Few, 0, false, false), Entry("value", Encapsulated, 0, false, false),
    Entry("value_box", Encapsulated, 0, false, false), Entry("native", Encapsulated, 0, false, false),
    Entry("abstract_interface", Encapsulated, 0, false, false)]

  const MESSAGES: seq<string> := [
    "Request", "Reply", "CancelRequest", "LocateRequest", "LocateReply", "CloseConnection", "MessageError", "Fragment"]

  predicate Names(kind: nat, name: string)
  {
    kind < |KINDS| && KINDS[kind].name == name
  }

  lemma BasicKindsNamed()
    ensures Names(TK_SHORT, "short") && Names(TK_LONG, "long") && Names(TK_USHORT, "ushort") && Names(TK_ULONG, "ulong")
    ensures Names(TK_OCTET, "octet") && Names(TK_ANY, "any")
  {
  }

  lemma MoreBasicKindsNamed()
    ensures Names(TK_FLOAT, "float") && Names(TK_DOUBLE, "double") && Names(TK_BOOLEAN, "boolean") && Names(TK_CHAR, "char")
    ensures Names(TK_TYPECODE, "TypeCode") && Names(TK_PRINCIPAL, "Principal")
  {
  }

  lemma BuiltKindsNamed()
    ensures Names(TK_OBJREF, "objref") && Names(TK_STRUCT, "struct") && Names(TK_UNION, "union") && Names(TK_ENUM, "enum")
    ensures Names(TK_STRING, "string") && Names(TK_SEQUENCE, "sequence") && Names(TK_ARRAY, "array") && Names(TK_ALIAS, "alias")
    ensures Names(TK_EXCEPT, "except")
  {
  }

  lemma LateKindsNamed()
    ensures Names(TK_LONGLONG, "longlong") && Names(TK_ULONGLONG, "ulonglong")
    ensures Names(TK_LONGDOUBLE, "longdouble") && Names(TK_WCHAR, "wchar") && Names(TK_WSTRING, "wstring")
    ensures TK_LAST == |KINDS| && TK_RECURSIVE == TWO32 - 1
  {
  }

  /** The codecs' tables are the standard's, but that long doubles have no size here. */
  lemma TablesAgree(kind: nat)
    requires kind < TK_LAST
    ensures IsBasic(kind) <==> KINDS[kind].parameters.Empty?
    ensures Width(kind) == if kind == TK_LONGDOUBLE then 0 else KINDS[kind].octets
    ensures IsOctet(kind) <==> KINDS[kind].octets == 1
  {
  }

  /**
   TypeCodes of unions are read for every discriminator of the standard, but
   values only for those of at most 32 bits that are no wchar, and also for octets.
   */
  lemma DiscriminatorsAgree(kind: nat)
    requires kind < TK_LAST
    ensures LabelWidth(kind) > 0 <==> KINDS[kind].switches
    ensures LabelWidth(kind) > 0 ==> LabelWidth(kind) == KINDS[kind].octets
    ensures Switchable(kind) <==>
            kind == TK_OCTET || (KINDS[kind].switches && KINDS[kind].octets <= 4 && kind != TK_WCHAR)
  {
  }

  /** The freeing walker has a case for exactly the kinds that own memory. */
  lemma OwnersFreed(kind: nat)
    requires kind < TK_LAST
    ensures NativeLayout.Owns(kind) <==> KINDS[kind].owns
  {
  }

  lemma MessagesNamed()
    ensures MESSAGES[REQUEST] == "Request" && MESSAGES[REPLY] == "Reply" && MESSAGES[CANCELREQUEST] == "CancelRequest"
    ensures MESSAGES[LOCATEREQUEST] == "LocateRequest" && MESSAGES[LOCATEREPLY] == "LocateReply"
    ensures MESSAGES[CLOSECONNECTION] == "CloseConnection" && MESSAGES[MESSAGEERROR] == "MessageError"
    ensures |MESSAGES| == FRAGMENT + 1 && MESSAGES[FRAGMENT] == "Fragment"
  {
  }

  /** The octets of a text in ASCII. */
  function Ascii(s: string): bytes
    requires forall i :: 0 <= i < |s| ==> s[i] < 256 as char
  {
    seq(|s|, i requires 0 <= i < |s| => s[i] as int)
  }

  lemma MagicTexts()
    ensures MAGIC == Ascii("GIOP") && HexIor.PREFIX == Ascii("IOR:")
    ensures Dispatch.GET == Ascii("_get_") && Dispatch.SET == Ascii("_set_")
  {
  }

  /** The registered profile and component tags; the unregistered ones spell OBT in their first three octets. */
  lemma TagsNamed()
    ensures ["InternetIop", "MultipleComponents"][Ior.TAG_INTERNET_IOP] == "InternetIop"
    ensures ["InternetIop", "MultipleComponents"][Ior.TAG_MULTIPLE_COMPONENTS] == "MultipleComponents"
    ensures Ior.ComponentTag(Ior.CodeSets(0, [], 0, [])) == 1 && Ior.ComponentTag(Ior.CompleteKey(None)) == 5
    ensures Ior.ComponentTag(Ior.SslSec(0, 0, 0)) == 20
    ensures Store(Big, 4, Ior.TAG_GENERIC_IOP) == Ascii("OBT") + [0] == Store(Big, 4, Ior.TAG_GENERIC_SSL_SEC_TRANS)
  {
    var d := Digits(4, Ior.TAG_GENERIC_IOP);
    assert d == [0, 0x54, 0x42, 0x4f];
    assert d[1..][1..][1..] == [0x4f] && d[1..][1..] == [0x42, 0x4f] && d[1..] == [0x54, 0x42, 0x4f];
  }

  /** A Request of GIOP 1.2 with 258 octets behind its header, from either kind of host. */
  lemma HeaderOctets()
    ensures HeaderWire(Little, 2, REQUEST, 258) == Ascii("GIOP") + [1, 2, 1, 0, 2, 1, 0, 0]
    ensures HeaderWire(Big, 2, REQUEST, 258) == Ascii("GIOP") + [1, 2, 0, 0, 0, 0, 1, 2]
  {
    assert Digits(4, 258) == [2, 1, 0, 0];
  }
}
