/** The `-macFilter` allow-list (main.go, lines 91-105). An empty flag
    installs no filter and every advertisement passes; otherwise the flag
    is split on commas and an advertisement passes when some entry, with
    its surrounding white space trimmed, equals the advertiser's address
    string exactly. The address itself is neither trimmed nor normalised,
    and the comparison is case-sensitive. */
module AddressFilter {
  import opened Wrappers
  import opened GoStrings

  /** The filter installed for a `-macFilter` value: none for the empty
      string, else the comma-separated entries as written. */
  function Install(macFilter: string): (f: Option<seq<string>>)
    ensures f.None? <==> macFilter == ""
    ensures f.Some? ==> |f.value| == Count(macFilter, ',') + 1
    ensures f.Some? ==> Join(f.value, ',') == macFilter
    ensures f.Some? ==> forall i :: 0 <= i < |f.value| ==> ',' !in f.value[i]
  {
    if macFilter == "" then None
    else
      JoinSplit(macFilter, ',');
      Some(Split(macFilter, ','))
  }

  /** Some entry of the list, once trimmed, is exactly `addr`. */
  predicate Listed(macs: seq<string>, addr: string)
  {
    exists i :: 0 <= i < |macs| && TrimSpace(macs[i]) == addr
  }

  /** Whether an advertisement from `addr` reaches the scan callback. */
  predicate Admits(f: Option<seq<string>>, addr: string)
  {
    match f
    case None => true
    case Some(macs) => Listed(macs, addr)
  }

  /** The installed filter function: a search over the entries that returns
      as soon as one matches. */
  method Matches(macs: seq<string>, addr: string) returns (ok: bool)
    ensures ok <==> Listed(macs, addr)
  {
    for i := 0 to |macs|
      invariant forall j :: 0 <= j < i ==> TrimSpace(macs[j]) != addr
    {
      if TrimSpace(macs[i]) == addr {
        return true;
      }
    }
    return false;
  }

  /** The gate `ble.Scan` applies before the callback: no filter lets
      everything through, else the installed function decides. */
  method Admit(f: Option<seq<string>>, addr: string) returns (ok: bool)
    ensures ok <==> Admits(f, addr)
    ensures f.None? ==> ok
  {
    if f.None? {
      ok := true;
    } else {
      ok := Matches(f.value, addr);
    }
  }

  /** "a,,b" installs three entries, the middle one empty. */
  lemma EmptyEntryExample()
    ensures Install("a,,b") == Some(["a", "", "b"])
  {
    assert "a,,b" == "a" + [','] + ",b";
    SplitAfterPiece("a", ",b", ',');
    assert ",b" == "" + [','] + "b";
    SplitAfterPiece("", "b", ',');
    SplitWithoutSeparator("b", ',');
    assert Split("a,,b", ',') == ["a"] + ([""] + ["b"]) == ["a", "", "b"];
    assert "a,,b" != "";
  }

  /** An entry made of white space alone (the empty entry of "a,,b", or a
      trailing comma) matches no non-empty address. */
  lemma BlankEntryMatchesNothing(macs: seq<string>, i: nat, addr: string)
    requires i < |macs|
    requires forall k :: 0 <= k < |macs[i]| ==> IsSpace(macs[i][k])
    requires addr != ""
    ensures TrimSpace(macs[i]) != addr
  {
    TrimSpaceOfBlank(macs[i]);
  }

  /** An address with leading or trailing white space passes no installed
      filter, whatever its entries: the entries are trimmed, the address is
      not. */
  lemma PaddedAddressNeverListed(macs: seq<string>, addr: string)
    requires addr != [] && (IsSpace(addr[0]) || IsSpace(addr[|addr| - 1]))
    ensures !Listed(macs, addr)
  {
    forall i | 0 <= i < |macs| ensures TrimSpace(macs[i]) != addr {
      TrimSpaceCharacterized(macs[i]);
    }
  }

  /** Trimming the entries beforehand changes nothing: the filter sees only
      their trimmed form. */
  lemma ListedOnlySeesTrimmedEntries(macs: seq<string>, addr: string)
    ensures Listed(macs, addr) <==>
      Listed(seq(|macs|, i requires 0 <= i < |macs| => TrimSpace(macs[i])), addr)
  {
    var trimmed := seq(|macs|, i requires 0 <= i < |macs| => TrimSpace(macs[i]));
    forall i | 0 <= i < |macs| ensures TrimSpace(trimmed[i]) == TrimSpace(macs[i]) {
      TrimSpaceIdempotent(macs[i]);
    }
  }

  /** A single entry without commas, spaces at its ends or anything else
      admits its own text and nothing else: in particular the comparison
      is case-sensitive. */
  lemma SingleEntryAdmitsExactlyItself(entry: string, addr: string)
    requires entry != "" && ',' !in entry
    requires !IsSpace(entry[0]) && !IsSpace(entry[|entry| - 1])
    ensures Admits(Install(entry), addr) <==> addr == entry
  {
  }
}
