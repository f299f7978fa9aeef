/**
 * Relationship kinds (`RelationType`, main.go:14-26) and the mnemonic that
 * the `info --relationship` command turns into one (main.go:114-132).
 *
 * `RelationType` is a Go `int`; a record header carries it as a `uint32`, so a
 * kind here is an integer and the named kinds are constants.
 */
module Relation {

  const ProcessorCore: nat := 0
  const NumaNode: nat := 1
  const Cache: nat := 2
  const ProcessorPackage: nat := 3
  const Group: nat := 4
  const ProcessorDie: nat := 5
  const NumaNodeEx: nat := 6
  const ProcessorModule: nat := 7
  /** The wildcard query "all kinds"; never the kind of a record. */
  const All: nat := 0xffff

  /** Kinds whose payload is a PROCESSOR_RELATIONSHIP (main.go:195). */
  predicate IsProcessorKind(k: nat) {
    k == ProcessorCore || k == ProcessorPackage || k == ProcessorDie || k == ProcessorModule
  }

  /** Kinds whose payload is a NUMA_NODE_RELATIONSHIP (main.go:221). */
  predicate IsNumaKind(k: nat) {
    k == NumaNode || k == NumaNodeEx
  }

  /**
   * The mnemonic switch of the CLI action (main.go:115-132): seven words name
   * a kind, everything else (the empty string, "module", "all", any typo)
   * falls back to the wildcard.
   */
  function FromMnemonic(s: string): (k: nat)
    ensures k == All || (k <= NumaNodeEx && Mnemonic(k) == Some(s))
    ensures k != ProcessorModule
  {
    match s
    case "processor" => ProcessorCore
    case "numa" => NumaNode
    case "numaex" => NumaNodeEx
    case "cache" => Cache
    case "package" => ProcessorPackage
    case "group" => Group
    case "die" => ProcessorDie
    case _ => All
  }

  datatype Option<T> = None | Some(value: T)

  /** The word that selects a kind, for the kinds the switch can select. */
  function Mnemonic(k: nat): Option<string> {
    if k == ProcessorCore then Some("processor")
    else if k == NumaNode then Some("numa")
    else if k == Cache then Some("cache")
    else if k == ProcessorPackage then Some("package")
    else if k == Group then Some("group")
    else if k == ProcessorDie then Some("die")
    else if k == NumaNodeEx then Some("numaex")
    else None
  }

  /** Every kind from ProcessorCore to NumaNodeEx has a word, and the switch maps that word back to it. */
  lemma MnemonicRoundTrip(k: nat)
    requires k <= NumaNodeEx
    ensures Mnemonic(k).Some?
    ensures FromMnemonic(Mnemonic(k).value) == k
  {
  }

  /** A word selects a specific kind exactly when it is one of the seven mnemonics. */
  lemma FromMnemonicSelects(s: string)
    ensures FromMnemonic(s) != All <==> exists k :: 0 <= k <= NumaNodeEx && Mnemonic(k) == Some(s)
  {
    if FromMnemonic(s) != All {
      assert Mnemonic(FromMnemonic(s)) == Some(s);
    } else {
      forall k | 0 <= k <= NumaNodeEx
        ensures Mnemonic(k) != Some(s)
      {
        if Mnemonic(k) == Some(s) {
          MnemonicRoundTrip(k);
        }
      }
    }
  }

  /** ProcessorModule has no word: "module" falls back to the wildcard, as does the empty string. */
  lemma FallBackToAll()
    ensures FromMnemonic("module") == All
    ensures FromMnemonic("") == All
    ensures FromMnemonic("all") == All
    ensures Mnemonic(ProcessorModule) == None
  {
  }
}
