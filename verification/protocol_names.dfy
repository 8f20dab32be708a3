/** `mapProtocolNumber`: the human-readable name of the protocol number the
    adapter reports in reply to `ATDPN`. */
module ProtocolNames {
  import opened Text

  const CanName: string := "ISO 15765-4 (CAN)"
  const Iso9141Name: string := "ISO 9141-2"
  const KwpName: string := "ISO 14230-4 (KWP)"
  const AutoName: string := "AUTO"

  /** The name used for any number outside the table, built from the
      untrimmed reply. */
  function GenericName(num: string): (r: string)
    ensures |r| > 0 && r[0] == 'P'
  {
    "Protocollo " + num
  }

  /** Current revision: the table is looked up with the trimmed reply and
      includes `A` for automatic protocol selection. */
  function ProtocolName(num: string): (r: string)
    ensures r == CanName <==> Trim(num) == "6"
    ensures r == Iso9141Name <==> Trim(num) == "3"
    ensures r == KwpName <==> Trim(num) == "4"
    ensures r == AutoName <==> Trim(num) == "A"
    ensures Trim(num) !in {"6", "3", "4", "A"} ==> r == GenericName(num)
  {
    var key := Trim(num);
    if key == "6" then CanName
    else if key == "3" then Iso9141Name
    else if key == "4" then KwpName
    else if key == "A" then AutoName
    else GenericName(num)
  }

  /** Legacy revision: exact, untrimmed match on three numbers only. */
  function ProtocolNameLegacy(num: string): (r: string)
    ensures r == CanName <==> num == "6"
    ensures r == Iso9141Name <==> num == "3"
    ensures r == KwpName <==> num == "4"
    ensures r != AutoName
    ensures num !in {"6", "3", "4"} ==> r == GenericName(num)
  {
    if num == "6" then CanName
    else if num == "3" then Iso9141Name
    else if num == "4" then KwpName
    else GenericName(num)
  }

  /** On a reply without surrounding whitespace the revisions agree on
      every number except `A`. */
  lemma RevisionsAgree(num: string)
    requires IsTrimmed(num)
    requires num != "A"
    ensures ProtocolName(num) == ProtocolNameLegacy(num)
  {
  }

  /** Where the revisions part: `A` is only known to the current one, and
      only the current one tolerates surrounding whitespace. */
  lemma RevisionsDiffer(num: string)
    requires Trim(num) in {"6", "3", "4", "A"}
    requires num != Trim(num) || num == "A"
    ensures ProtocolNameLegacy(num) == GenericName(num)
    ensures ProtocolName(num) != GenericName(num)
  {
  }
}
