/** Classification of a transaction by its recipient and call data (lib/classifier.ts). */
module Classifier {
  import opened Wrappers

  /** The seven categories a transaction is sorted into. */
  datatype TxType =
    | EthTransfer
    | ContractCreation
    | Erc20Transfer
    | Erc20Approve
    | NftTransfer
    | Swap
    | ContractCall

  /** Number of characters of the input that form the selector: "0x" and four hex-encoded bytes. */
  const SelectorLength: nat := 10

  /** The known function selectors, keyed by their lower-case hex encoding. */
  const Selectors: map<string, TxType> := map[
    "0xa9059cbb" := Erc20Transfer,  // transfer(address,uint256)
    "0x23b872dd" := Erc20Transfer,  // transferFrom(address,address,uint256)
    "0x095ea7b3" := Erc20Approve,   // approve(address,uint256)
    "0x42842e0e" := NftTransfer,    // safeTransferFrom(address,address,uint256)
    "0xb88d4fde" := NftTransfer,    // safeTransferFrom(address,address,uint256,bytes)
    "0xf242432a" := NftTransfer,    // safeTransferFrom(address,address,uint256,uint256,bytes)
    "0x3593564c" := Swap,           // execute(bytes,bytes[],uint256)
    "0x04e45aaf" := Swap,           // exactInputSingle
    "0x5ae401dc" := Swap,           // multicall(uint256,bytes[])
    "0x5f575529" := Swap,           // swap(string,address,uint256,bytes)
    "0x12aa3caf" := Swap            // swap(address,(...),bytes,bytes)
  ]

  /** The emoji shown for each category. */
  const TxTypeEmoji: map<TxType, string> := map[
    EthTransfer := "\U{1F4B8}",
    ContractCreation := "\U{1F4DD}",
    Erc20Transfer := "\U{1FA99}",
    Erc20Approve := "\U{2705}",
    NftTransfer := "\U{1F48E}",
    Swap := "\U{1F504}",
    ContractCall := "\U{26A1}"
  ]

  /** The label shown for each category. */
  const TxTypeLabel: map<TxType, string> := map[
    EthTransfer := "ETH Transfer",
    ContractCreation := "Contract Creation",
    Erc20Transfer := "ERC20 Transfer",
    Erc20Approve := "ERC20 Approve",
    NftTransfer := "NFT Transfer",
    Swap := "Swap",
    ContractCall := "Contract Call"
  ]

  function ToLowerChar(c: char): char {
    if 'A' <= c <= 'Z' then (c as int + 32) as char else c
  }

  function ToUpperChar(c: char): char {
    if 'a' <= c <= 'z' then (c as int - 32) as char else c
  }

  /** ASCII lower-casing of a string, character by character. */
  function ToLower(s: string): (r: string)
    ensures |r| == |s|
    ensures forall i :: 0 <= i < |s| ==> r[i] == ToLowerChar(s[i])
  {
    seq(|s|, i requires 0 <= i < |s| => ToLowerChar(s[i]))
  }

  /** ASCII upper-casing of a string, character by character. */
  function ToUpper(s: string): (r: string)
    ensures |r| == |s|
    ensures forall i :: 0 <= i < |s| ==> r[i] == ToUpperChar(s[i])
  {
    seq(|s|, i requires 0 <= i < |s| => ToUpperChar(s[i]))
  }

  /** `s.slice(0, n)`: the first n characters, or all of s when it is shorter. */
  function Prefix(s: string, n: nat): (r: string)
    ensures |r| == if |s| < n then |s| else n
    ensures r <= s
  {
    if |s| < n then s else s[..n]
  }

  /** The selector table lookup with its fallback (`SELECTORS[selector] || "CONTRACT_CALL"`). */
  function LookupSelector(selector: string): TxType {
    if selector in Selectors then Selectors[selector] else ContractCall
  }

  /** The category of a transaction with recipient `to` (None for a contract creation) and call data `input`. */
  function ClassifyTransaction(to: Option<string>, input: string): TxType {
    if to.None? then ContractCreation
    else if input == "0x" then EthTransfer
    else LookupSelector(ToLower(Prefix(input, SelectorLength)))
  }

  /** Every key of the selector table is ten characters long and already in lower case. */
  lemma SelectorKeysCanonical()
    ensures forall k :: k in Selectors ==> |k| == SelectorLength && ToLower(k) == k
  {
    forall k | k in Selectors
      ensures |k| == SelectorLength && ToLower(k) == k
    {
      assert ToLower(k) == k;
    }
  }

  /** Without a recipient the transaction is a contract creation, whatever its input. */
  lemma CreationIgnoresInput(input: string, other: string)
    ensures ClassifyTransaction(None, input) == ContractCreation
    ensures ClassifyTransaction(None, input) == ClassifyTransaction(None, other)
  {
  }

  /** With a recipient, exactly the input "0x" is a plain ether transfer... */
  lemma EthTransferExactly(to: string, input: string)
    ensures ClassifyTransaction(Some(to), input) == EthTransfer <==> input == "0x"
  {
    if input != "0x" {
      var sel := ToLower(Prefix(input, SelectorLength));
      assert EthTransfer !in Selectors.Values;
      if sel in Selectors {
        assert Selectors[sel] in Selectors.Values;
      }
    }
  }

  /**
   * Only the lower-cased first ten characters matter: when they are a key of the table the
   * input classifies as that key's category, whatever follows.
   */
  lemma SelectorHitAnyPayload(to: string, sel: string, payload: string)
    requires |sel| == SelectorLength && ToLower(sel) in Selectors
    ensures ClassifyTransaction(Some(to), sel + payload) == Selectors[ToLower(sel)]
  {
    assert Prefix(sel + payload, SelectorLength) == sel;
  }

  /** ...and when they are not a key, the input is a generic contract call, whatever follows. */
  lemma SelectorMissAnyPayload(to: string, sel: string, payload: string)
    requires |sel| == SelectorLength && ToLower(sel) !in Selectors
    ensures ClassifyTransaction(Some(to), sel + payload) == ContractCall
  {
    assert Prefix(sel + payload, SelectorLength) == sel;
  }

  /** Every ERC-20 `transfer` call, whatever its arguments, is an ERC-20 transfer. */
  lemma TransferSelectorExample(to: string, payload: string)
    ensures ClassifyTransaction(Some(to), "0xa9059cbb" + payload) == Erc20Transfer
  {
    assert ToLower("0xa9059cbb") == "0xa9059cbb";
    SelectorHitAnyPayload(to, "0xa9059cbb", payload);
  }

  /**
   * Selector matching ignores case: upper-casing the input never changes the category,
   * except for "0x" itself, which is an ether transfer while "0X" is a contract call.
   */
  lemma SelectorCaseInsensitive(to: Option<string>, input: string)
    requires input != "0x"
    ensures ClassifyTransaction(to, ToUpper(input)) == ClassifyTransaction(to, input)
  {
    var up := ToUpper(input);
    assert up != "0x" by {
      if |up| == 2 { assert up[1] == ToUpperChar(input[1]) != 'x'; }
    }
    var a := ToLower(Prefix(up, SelectorLength));
    var b := ToLower(Prefix(input, SelectorLength));
    assert |a| == |b|;
    forall i | 0 <= i < |a| ensures a[i] == b[i] {
      assert Prefix(up, SelectorLength)[i] == up[i];
      assert Prefix(input, SelectorLength)[i] == input[i];
    }
    assert a == b;
  }

  /** An input shorter than a selector, other than "0x", is always a generic contract call. */
  lemma ShortInputIsContractCall(to: string, input: string)
    requires |input| < SelectorLength && input != "0x"
    ensures ClassifyTransaction(Some(to), input) == ContractCall
  {
    SelectorKeysCanonical();
  }

  /** The emoji and label records define an entry for every category. */
  lemma EveryTypeIsDisplayable(t: TxType)
    ensures t in TxTypeEmoji && t in TxTypeLabel
    ensures forall u :: u in TxTypeLabel && TxTypeLabel[u] == TxTypeLabel[t] ==> u == t
  {
    match t
    case EthTransfer =>
    case ContractCreation =>
    case Erc20Transfer =>
    case Erc20Approve =>
    case NftTransfer =>
    case Swap =>
    case ContractCall =>
  }
}
