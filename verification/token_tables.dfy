/**
  The client's two token tables: `tokens` from the name shown to the user
  to the token's contract address, and `tokensInv` back from an address
  to the name, used to label each stake by the address it records. The
  protocol's own token address is read from the staking contract at
  start-up; the DAI and LINK addresses are fixed (Kovan deployments).
 */
module TokenTables {
  import opened JsMap

  type Name = string
  type Address = string

  const DaiAddress: Address := "0x4F96Fe3b7A6Cf9725f59d353F723c1bDb64CA6Aa"
  const LinkAddress: Address := "0xa36085F69e2889c224210F603D836748e7dC0088"

  /** The protocol token's address is neither of the fixed ones: the
      condition under which the two tables are inverse. */
  predicate DistinctAddresses(protocolToken: Address) {
    protocolToken != DaiAddress && protocolToken != LinkAddress
  }

  function TokenEntries(protocolToken: Address): seq<(Name, Address)> {
    [("UNF", protocolToken), ("DAI", DaiAddress), ("LINK", LinkAddress)]
  }

  function InverseEntries(protocolToken: Address): seq<(Address, Name)> {
    [(protocolToken, "UNF"), (DaiAddress, "DAI"), (LinkAddress, "LINK")]
  }

  /** `tokens`: three names in display order, each bound to its address,
      whatever address the contract reports for the protocol token. */
  function Tokens(protocolToken: Address): (m: seq<(Name, Address)>)
    ensures Keys(m) == ["UNF", "DAI", "LINK"]
    ensures Get(m, "UNF") == Some(protocolToken)
    ensures Get(m, "DAI") == Some(DaiAddress)
    ensures Get(m, "LINK") == Some(LinkAddress)
  {
    var es := TokenEntries(protocolToken);
    FromEntriesDistinct(es);
    FromEntries(es)
  }

  /** `tokensInv`: the DAI and LINK addresses always name their tokens;
      when the protocol token's address is distinct from both, it names
      "UNF" and the table lists the three addresses in order. */
  function TokensInv(protocolToken: Address): (m: seq<(Address, Name)>)
    ensures Get(m, DaiAddress) == Some("DAI")
    ensures Get(m, LinkAddress) == Some("LINK")
    ensures DistinctAddresses(protocolToken) ==>
      Keys(m) == [protocolToken, DaiAddress, LinkAddress] && Get(m, protocolToken) == Some("UNF")
  {
    var es := InverseEntries(protocolToken);
    FromEntriesGet(es, DaiAddress);
    FromEntriesGet(es, LinkAddress);
    if DistinctAddresses(protocolToken) then
      FromEntriesDistinct(es);
      FromEntries(es)
    else
      FromEntries(es)
  }

  /** The tables are inverse: a name maps to an address exactly when that
      address maps back to the name. */
  lemma TokensInvInverse(protocolToken: Address, name: Name, address: Address)
    requires DistinctAddresses(protocolToken)
    ensures Get(Tokens(protocolToken), name) == Some(address)
        <==> Get(TokensInv(protocolToken), address) == Some(name)
  {
  }

  /** A stake made through the form for token `name` records
      `tokens.get(name)` as its address; the "My stakes" table labels it
      with `tokensInv.get` of that address, which gives `name` back. */
  lemma StakeLabel(protocolToken: Address, name: Name)
    requires DistinctAddresses(protocolToken)
    requires Get(Tokens(protocolToken), name).Some?
    ensures Get(TokensInv(protocolToken), Get(Tokens(protocolToken), name).value) == Some(name)
  {
  }

  /** Without the side condition the tables are not inverse: when the
      protocol token shares an address with DAI or LINK, the later entry
      of `tokensInv` overwrites the first, so that address reads as the
      fixed token's name and "UNF" is never shown. */
  lemma SharedAddressHidesProtocolToken(protocolToken: Address)
    requires !DistinctAddresses(protocolToken)
    ensures Get(Tokens(protocolToken), "UNF") == Some(protocolToken)
    ensures Get(TokensInv(protocolToken), protocolToken) != Some("UNF")
    ensures |Keys(TokensInv(protocolToken))| == 2
  {
    SharedAddressTable(protocolToken);
  }

  /** The table `new Map` builds when the protocol token shares an address. */
  lemma SharedAddressTable(protocolToken: Address)
    requires !DistinctAddresses(protocolToken)
    ensures TokensInv(protocolToken)
      == if protocolToken == DaiAddress then [(DaiAddress, "DAI"), (LinkAddress, "LINK")]
         else [(LinkAddress, "LINK"), (DaiAddress, "DAI")]
  {
    var inv := InverseEntries(protocolToken);
    assert inv[..1][..0] == [];
    assert FromEntries(inv[..1]) == [(protocolToken, "UNF")];
    assert inv[..2][..1] == inv[..1];
    assert FromEntries(inv[..2]) == Set([(protocolToken, "UNF")], DaiAddress, "DAI");
    assert inv[..3][..2] == inv[..2];
    assert inv[..3] == inv;
  }
}
