/**
 * WalletService: creating a wallet for a trimmed, non-blank owner name, and
 * reading the policies attached to a wallet.
 */
module WalletService {
  import opened Wrappers
  import opened Domain
  import Policies = PolicyRepository
  import Wallets = WalletRepository

  /**
   * Kotlin's `Char.isWhitespace` on the JVM: the ASCII controls TAB to CR and
   * FS to US, and every Unicode space, line or paragraph separator (the
   * no-break spaces included).
   */
  predicate IsWhitespace(c: char) {
    || ('\U{0009}' <= c <= '\U{000D}')
    || ('\U{001C}' <= c <= '\U{0020}')
    || c == '\U{00A0}' || c == '\U{1680}'
    || ('\U{2000}' <= c <= '\U{200A}')
    || c == '\U{2028}' || c == '\U{2029}' || c == '\U{202F}' || c == '\U{205F}' || c == '\U{3000}'
  }

  /**
   * Spaces, tabs, line breaks and the no-break spaces are whitespace; letters
   * and the zero-width space are not.
   */
  lemma WhitespaceExamples()
    ensures IsWhitespace(' ') && IsWhitespace('\t') && IsWhitespace('\n') && IsWhitespace('\r')
    ensures IsWhitespace('\U{00A0}') && IsWhitespace('\U{2007}') && IsWhitespace('\U{3000}')
    ensures !IsWhitespace('A') && !IsWhitespace('_') && !IsWhitespace('\U{200B}') && !IsWhitespace('\U{0000}')
  {
  }

  /** `isBlank`: empty or whitespace only. */
  predicate IsBlank(s: string) {
    forall i :: 0 <= i < |s| ==> IsWhitespace(s[i])
  }

  /** Drops the leading whitespace. */
  function TrimStart(s: string): (r: string)
    ensures |r| <= |s| && r == s[|s| - |r|..]
    ensures IsBlank(s[..|s| - |r|])
    ensures r == [] || !IsWhitespace(r[0])
  {
    if s == [] || !IsWhitespace(s[0]) then s
    else
      var r := TrimStart(s[1..]);
      assert s[..|s| - |r|] == [s[0]] + s[1..][..|s| - 1 - |r|];
      r
  }

  /** Drops the trailing whitespace. */
  function TrimEnd(s: string): (r: string)
    ensures |r| <= |s| && r == s[..|r|]
    ensures IsBlank(s[|r|..])
    ensures r == [] || !IsWhitespace(r[|r| - 1])
  {
    if s == [] || !IsWhitespace(s[|s| - 1]) then s
    else
      var r := TrimEnd(s[..|s| - 1]);
      assert s[|r|..] == s[..|s| - 1][|r|..] + [s[|s| - 1]];
      r
  }

  /** `trim`: the name without its leading and trailing whitespace. */
  function Trim(s: string): (r: string)
    ensures r == [] || (!IsWhitespace(r[0]) && !IsWhitespace(r[|r| - 1]))
  {
    var t := TrimStart(s);
    var r := TrimEnd(t);
    assert r != [] ==> r[0] == t[0];
    r
  }

  /** The trimmed name is the slice of the name between a blank head and a blank tail. */
  lemma TrimIsSlice(s: string)
    ensures var r := Trim(s);
      exists i :: 0 <= i <= |s| - |r| && r == s[i..i + |r|] && IsBlank(s[..i]) && IsBlank(s[i + |r|..])
  {
    var i := TrimSliceStart(s);
  }

  /** Where the trimmed name starts in the name. */
  lemma TrimSliceStart(s: string) returns (i: nat)
    ensures var r := Trim(s);
      i <= |s| - |Trim(s)| && r == s[i..i + |r|] && IsBlank(s[..i]) && IsBlank(s[i + |r|..])
  {
    var t := TrimStart(s);
    i := |s| - |t|;
    var r := TrimEnd(t);
    assert Trim(s) == r;
    BlankAround(s, t, r, i);
  }

  /** A prefix r of the suffix t from i, followed in t by blanks, is the slice from i followed by blanks. */
  lemma BlankAround(s: string, t: string, r: string, i: nat)
    requires i <= |s| && t == s[i..] && |r| <= |t| && r == t[..|r|] && IsBlank(t[|r|..])
    ensures r == s[i..i + |r|] && IsBlank(s[i + |r|..])
  {
    assert t[|r|..] == s[i + |r|..];
  }

  /** The trimmed name is empty exactly when the name is blank. */
  lemma {:induction false} TrimBlank(s: string)
    ensures Trim(s) == [] <==> IsBlank(s)
  {
    var t := TrimStart(s);
    var k := |s| - |t|;
    assert s == s[..k] + t;
    if Trim(s) == [] {
      assert t[0..] == t;
      assert t == [];
      assert s[..k] == s;
    } else {
      assert Trim(s)[0] == t[0] == s[k];
    }
  }

  /** A trimmed name is blank only when empty: `trimmed.isNotBlank()` is `trimmed` being non-empty. */
  lemma BlankTrimIsEmpty(s: string)
    ensures IsBlank(Trim(s)) <==> Trim(s) == []
  {
  }

  /** Trimming twice is trimming once. */
  lemma TrimIdempotent(s: string)
    ensures Trim(Trim(s)) == Trim(s)
  {
    var r := Trim(s);
    if r != [] {
      assert TrimStart(r) == r;
      assert TrimEnd(r) == r;
    }
  }

  /** A name with surrounding spaces is stored without them: "  Alice  " becomes "Alice". */
  lemma TrimExample()
    ensures Trim("  Alice  ") == "Alice"
  {
    TrimStartExample();
    TrimEndExample();
  }

  /** The leading spaces of "  Alice  " are dropped. */
  lemma TrimStartExample()
    ensures TrimStart("  Alice  ") == "Alice  "
  {
    var s := "  Alice  ";
    TwoLeadingSpaces(s);
    assert s[2..] == "Alice  ";
  }

  /** Two leading whitespace characters before a non-whitespace one are dropped. */
  lemma TwoLeadingSpaces(s: string)
    requires |s| >= 3 && IsWhitespace(s[0]) && IsWhitespace(s[1]) && !IsWhitespace(s[2])
    ensures TrimStart(s) == s[2..]
  {
    TrimStartStep(s);
    TrimStartStep(s[1..]);
    assert s[1..][1..] == s[2..];
    TrimStartStop(s[2..]);
  }

  /** The trailing spaces of "Alice  " are dropped. */
  lemma TrimEndExample()
    ensures TrimEnd("Alice  ") == "Alice"
  {
    var s0, s1, s2 := "Alice  ", "Alice ", "Alice";
    TrimEndStep(s0);
    assert s0[..6] == s1;
    TrimEndStep(s1);
    assert s1[..5] == s2;
    TrimEndStop(s2);
  }

  /** A name not starting with whitespace keeps its start. */
  lemma TrimStartStop(s: string)
    requires s != [] && !IsWhitespace(s[0])
    ensures TrimStart(s) == s
  {
  }

  /** A name not ending with whitespace keeps its end. */
  lemma TrimEndStop(s: string)
    requires s != [] && !IsWhitespace(s[|s| - 1])
    ensures TrimEnd(s) == s
  {
  }

  /** A leading whitespace character is dropped. */
  lemma TrimStartStep(s: string)
    requires s != [] && IsWhitespace(s[0])
    ensures TrimStart(s) == TrimStart(s[1..])
  {
  }

  /** A trailing whitespace character is dropped. */
  lemma TrimEndStep(s: string)
    requires s != [] && IsWhitespace(s[|s| - 1])
    ensures TrimEnd(s) == TrimEnd(s[..|s| - 1])
  {
  }

  /** Why `createWallet` fails: a blank owner name, or a clashing id rejected by the primary key. */
  datatype WalletError = BlankOwnerName | DuplicateId

  /**
   * `getWalletPolicies`: None for an unknown wallet; otherwise its attached
   * policies that resolve, in attach order, dangling ids skipped.
   */
  function GetWalletPolicies(walletRows: map<int, Wallets.WalletRow>, policyRows: seq<Policies.PolicyRow>, walletId: int)
    : (r: Option<seq<Policy>>)
    ensures r.None? <==> walletId !in walletRows
    ensures r.Some? ==> |r.value| <= 1
    ensures r.Some? ==> forall p :: p in r.value <==>
      walletRows[walletId].policyId == Some(p.id) && Policies.GetById(policyRows, p.id) == Some(p)
  {
    match Wallets.GetById(walletRows, walletId)
    case None => None
    case Some(wallet) => Some(Policies.ResolvePolicies(policyRows, wallet.policyIds))
  }

  /** The wallet service over the wallets and policies tables. */
  class WalletService {
    const wallets: Wallets.WalletTable
    const policies: Policies.PolicyTable

    constructor (wallets: Wallets.WalletTable, policies: Policies.PolicyTable)
      ensures this.wallets == wallets && this.policies == policies
    {
      this.wallets := wallets;
      this.policies := policies;
    }

    /**
     * `createWallet`: fails and stores nothing for a blank owner name;
     * otherwise stores, once, a wallet with the trimmed name and no policies.
     */
    method CreateWallet(ownerName: string, newId: int, now: int) returns (r: Result<Wallet, WalletError>)
      modifies wallets
      ensures IsBlank(ownerName) <==> r == Err(BlankOwnerName)
      ensures r == Err(DuplicateId) <==> !IsBlank(ownerName) && newId in old(wallets.rows)
      ensures r.Err? ==> wallets.rows == old(wallets.rows)
      ensures r.Ok? ==> && r.value == Wallet(newId, Trim(ownerName), [], now)
                        && Trim(ownerName) != [] && !IsWhitespace(Trim(ownerName)[0])
                        && wallets.rows == old(wallets.rows)[newId := Wallets.ToRow(r.value)]
                        && Wallets.GetById(wallets.rows, newId) == Some(r.value)
    {
      var trimmed := Trim(ownerName);
      TrimBlank(ownerName);
      if trimmed == [] {
        return Err(BlankOwnerName);
      }
      var wallet := Wallet(newId, trimmed, [], now);
      var ok := wallets.Insert(wallet);
      if ok {
        r := Ok(wallet);
      } else {
        r := Err(DuplicateId);
      }
    }
  }
}
