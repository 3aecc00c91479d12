/** The path updates that the migration script ships with, and that migration with them converges. */
module ShippedUpdates {
  import opened MigrateImports
  import opened UpgradeablePaths

  /**
   * What becomes of a file: it is found in another directory, there it is also marked as a draft, or it
   * has another name.
   */
  datatype Move =
    | Moved(dir: string, newDir: string, name: string)
    | Drafted(dir: string, newDir: string, name: string)
    | Renamed(from: string, to: string)

  function PathUpdate(m: Move): Entry {
    match m
    case Moved(dir, newDir, name) => Entry(dir + "/" + name, newDir + "/" + name)
    case Drafted(dir, newDir, name) => Entry(dir + "/" + name, newDir + "/draft-" + name)
    case Renamed(from, to) => Entry(from, to)
  }

  function AccessMoves(): seq<Move> {
    [
      Moved("access", "governance", "TimelockController.sol"),
      Moved("cryptography", "utils/cryptography", "ECDSA.sol"),
      Moved("cryptography", "utils/cryptography", "MerkleProof.sol")
    ]
  }

  function EIP712Moves(): seq<Move> {
    [
      Moved("drafts", "utils/cryptography", "EIP712.sol")
    ]
  }

  function PermitMoves(): seq<Move> {
    [
      Drafted("drafts", "token/ERC20/extensions", "ERC20Permit.sol"),
      Drafted("drafts", "token/ERC20/extensions", "IERC20Permit.sol")
    ]
  }

  function GSNMoves(): seq<Move> {
    [
      Moved("GSN", "utils", "Context.sol")
    ]
  }

  function IntrospectionMoves(): seq<Move> {
    [
      Moved("introspection", "utils/introspection", "ERC165Checker.sol"),
      Moved("introspection", "utils/introspection", "ERC165.sol"),
      Moved("introspection", "utils/introspection", "ERC1820Implementer.sol")
    ]
  }

  function IntrospectionInterfaceMoves(): seq<Move> {
    [
      Moved("introspection", "utils/introspection", "IERC165.sol"),
      Moved("introspection", "utils/introspection", "IERC1820Implementer.sol"),
      Moved("introspection", "utils/introspection", "IERC1820Registry.sol")
    ]
  }

  function MathMoves(): seq<Move> {
    [
      Moved("math", "utils/math", "Math.sol"),
      Moved("math", "utils/math", "SafeMath.sol"),
      Moved("math", "utils/math", "SignedSafeMath.sol")
    ]
  }

  function EscrowMoves(): seq<Move> {
    [
      Moved("payment/escrow", "utils/escrow", "ConditionalEscrow.sol"),
      Moved("payment/escrow", "utils/escrow", "Escrow.sol")
    ]
  }

  function RefundEscrowMoves(): seq<Move> {
    [
      Moved("payment/escrow", "utils/escrow", "RefundEscrow.sol")
    ]
  }

  function PaymentMoves(): seq<Move> {
    [
      Moved("payment", "finance", "PaymentSplitter.sol"),
      Moved("utils", "finance", "PaymentSplitter.sol"),
      Moved("payment", "security", "PullPayment.sol")
    ]
  }

  function ERC1155PresetMoves(): seq<Move> {
    [
      Moved("presets", "token/ERC1155/presets", "ERC1155PresetMinterPauser.sol")
    ]
  }

  function ERC20PresetMoves(): seq<Move> {
    [
      Moved("presets", "token/ERC20/presets", "ERC20PresetFixedSupply.sol"),
      Moved("presets", "token/ERC20/presets", "ERC20PresetMinterPauser.sol")
    ]
  }

  function OtherPresetMoves(): seq<Move> {
    [
      Moved("presets", "token/ERC721/presets", "ERC721PresetMinterPauserAutoId.sol"),
      Moved("presets", "token/ERC777/presets", "ERC777PresetFixedSupply.sol")
    ]
  }

  function BeaconMoves(): seq<Move> {
    [
      Moved("proxy", "proxy/beacon", "BeaconProxy.sol"),
      Moved("proxy", "proxy/beacon", "IBeacon.sol")
    ]
  }

  function InitializableMoves(): seq<Move> {
    [
      Moved("proxy", "proxy/utils", "Initializable.sol"),
      Moved("utils", "proxy/utils", "Initializable.sol")
    ]
  }

  function TransparentMoves(): seq<Move> {
    [
      Moved("proxy", "proxy/transparent", "ProxyAdmin.sol"),
      Moved("proxy", "proxy/transparent", "TransparentUpgradeableProxy.sol")
    ]
  }

  function UpgradeableProxyMoves(): seq<Move> {
    [
      Moved("proxy", "proxy/beacon", "UpgradeableBeacon.sol"),
      Renamed("proxy/UpgradeableProxy.sol", "proxy/ERC1967/ERC1967Proxy.sol")
    ]
  }

  function ERC1155Moves(): seq<Move> {
    [
      Moved("token/ERC1155", "token/ERC1155/extensions", "ERC1155Burnable.sol"),
      Moved("token/ERC1155", "token/ERC1155/utils", "ERC1155Holder.sol"),
      Moved("token/ERC1155", "token/ERC1155/extensions", "ERC1155Pausable.sol")
    ]
  }

  function ERC1155ReceiverMoves(): seq<Move> {
    [
      Moved("token/ERC1155", "token/ERC1155/utils", "ERC1155Receiver.sol"),
      Moved("token/ERC1155", "token/ERC1155/extensions", "IERC1155MetadataURI.sol")
    ]
  }

  function ERC20Moves(): seq<Move> {
    [
      Moved("token/ERC20", "token/ERC20/extensions", "ERC20Burnable.sol"),
      Moved("token/ERC20", "token/ERC20/extensions", "ERC20Capped.sol")
    ]
  }

  function ERC20ExtensionMoves(): seq<Move> {
    [
      Moved("token/ERC20", "token/ERC20/extensions", "ERC20Pausable.sol"),
      Moved("token/ERC20", "token/ERC20/extensions", "ERC20Snapshot.sol")
    ]
  }

  function ERC20UtilityMoves(): seq<Move> {
    [
      Moved("token/ERC20", "token/ERC20/utils", "SafeERC20.sol"),
      Moved("token/ERC20", "token/ERC20/utils", "TokenTimelock.sol")
    ]
  }

  function ERC721Moves(): seq<Move> {
    [
      Moved("token/ERC721", "token/ERC721/extensions", "ERC721Burnable.sol"),
      Moved("token/ERC721", "token/ERC721/utils", "ERC721Holder.sol")
    ]
  }

  function ERC721PausableMoves(): seq<Move> {
    [
      Moved("token/ERC721", "token/ERC721/extensions", "ERC721Pausable.sol")
    ]
  }

  function ERC721InterfaceMoves(): seq<Move> {
    [
      Moved("token/ERC721", "token/ERC721/extensions", "IERC721Enumerable.sol"),
      Moved("token/ERC721", "token/ERC721/extensions", "IERC721Metadata.sol")
    ]
  }

  function StructMoves(): seq<Move> {
    [
      Moved("utils", "utils/structs", "EnumerableMap.sol"),
      Moved("utils", "utils/structs", "EnumerableSet.sol")
    ]
  }

  function UtilityMoves(): seq<Move> {
    [
      Moved("utils", "security", "Pausable.sol"),
      Moved("utils", "security", "ReentrancyGuard.sol"),
      Moved("utils", "utils/math", "SafeCast.sol")
    ]
  }

  function Moves(): seq<Move> {
    AccessMoves() + EIP712Moves() + PermitMoves() + GSNMoves() +
    IntrospectionMoves() + IntrospectionInterfaceMoves() + MathMoves() + EscrowMoves() +
    RefundEscrowMoves() + PaymentMoves() + ERC1155PresetMoves() + ERC20PresetMoves() +
    OtherPresetMoves() + BeaconMoves() + InitializableMoves() + TransparentMoves() +
    UpgradeableProxyMoves() + ERC1155Moves() + ERC1155ReceiverMoves() + ERC20Moves() +
    ERC20ExtensionMoves() + ERC20UtilityMoves() + ERC721Moves() + ERC721PausableMoves() +
    ERC721InterfaceMoves() + StructMoves() + UtilityMoves()
  }

  /** The table, in the order of the script. */
  function PathUpdates(): seq<Entry> {
    Entries(Moves())
  }

  function Entries(moves: seq<Move>): seq<Entry> {
    seq(|moves|, i requires 0 <= i < |moves| => PathUpdate(moves[i]))
  }

  // ---- what sets the old paths apart ----

  /**
   * The place in the table of the old path with the first character and the length of `path` and, in the
   * larger directories, one more character in common; or -1.
   */
  function Slot(path: string): int
    requires |path| >= 12
  {
    var n := |path|;
    match path[0]
    case 'p' => PackageSlot(n, path[n - 7])
    case 't' => TokenSlot(n, path[n - 9])
    case 'u' => UtilsSlot(n, path[n - 6])
    case 'i' => IntrospectionSlot(n)
    case c => OtherSlot(c, n)
  }

  function PackageSlot(n: nat, a: char): int {
    match (n, a)
    case (36, 'r') => 16
    case (25, 'r') => 17
    case (31, 'r') => 18
    case (27, 't') => 19
    case (23, 'e') => 21
    case (37, 's') => 22
    case (34, 'p') => 23
    case (35, 's') => 24
    case (42, 'o') => 25
    case (35, 'p') => 26
    case (21, 'o') => 27
    case (17, 'c') => 28
    case (23, 'b') => 29
    case (20, 'm') => 31
    case (37, 'o') => 32
    case (27, 'c') => 33
    case (26, 'o') => 34
    case _ => -1
  }

  function TokenSlot(n: nat, a: char): int {
    match (n, a)
    case (33, 'n') => 35
    case (31, 'o') => 36
    case (33, 's') => 37
    case (33, 'e') => 38
    case (37, 't') => 39
    case (29, 'n') => 40
    case (27, 'a') => 41
    case (29, 's') => 42
    case (29, 'p') => 43
    case (25, 'E') => 44
    case (29, 'e') => 45
    case (31, 'n') => 46
    case (29, 'o') => 47
    case (31, 's') => 48
    case (34, 'r') => 49
    case (32, 'a') => 50
    case _ => -1
  }

  function UtilsSlot(n: nat, a: char): int {
    match (n, a)
    case (25, 'e') => 20
    case (23, 'l') => 30
    case (23, 'a') => 51
    case (23, 'e') => 52
    case (18, 'l') => 53
    case (25, 'r') => 54
    case (18, 's') => 55
    case _ => -1
  }

  function IntrospectionSlot(n: nat): int {
    match n
    case 31 => 7
    case 24 => 8
    case 36 => 9
    case 25 => 10
    case 37 => 11
    case 34 => 12
    case _ => -1
  }

  function OtherSlot(c: char, n: nat): int {
    match (c, n)
    case ('a', 29) => 0
    case ('c', 22) => 1
    case ('c', 28) => 2
    case ('d', 17) => 3
    case ('d', 22) => 4
    case ('d', 23) => 5
    case ('G', 15) => 6
    case ('m', 13) => 13
    case ('m', 17) => 14
    case ('m', 23) => 15
    case _ => -1
  }

  /** A relative path of a file, by the characters at its ends. */
  predicate Plain(path: string) {
    |path| >= 12 && path[0] != '/' && path[|path| - 1] == 'l'
  }

  predicate Placed(e: Entry, i: nat) {
    Plain(e.from) && Plain(e.to) && Slot(e.from) == i && Slot(e.to) == -1
  }

  /** Only one file gets another name. */
  predicate Allowed(m: Move) {
    m.Renamed? ==> m == Renamed("proxy/UpgradeableProxy.sol", "proxy/ERC1967/ERC1967Proxy.sol")
  }

  /** The old paths have the places from `first` on, the new paths have none, and names are kept. */
  ghost predicate InPlace(moves: seq<Move>, first: nat) {
    forall i :: 0 <= i < |moves| ==> Placed(PathUpdate(moves[i]), first + i) && Allowed(moves[i])
  }

  lemma AccessPlaces()
    ensures InPlace(AccessMoves(), 0) && |AccessMoves()| == 3
  {
    var moves := AccessMoves();
    assert Placed(PathUpdate(moves[0]), 0) && Placed(PathUpdate(moves[1]), 1) && Placed(PathUpdate(moves[2]), 2);
  }

  lemma EIP712Places()
    ensures InPlace(EIP712Moves(), 3) && |EIP712Moves()| == 1
  {
    var moves := EIP712Moves();
    assert Placed(PathUpdate(moves[0]), 3);
  }

  lemma PermitPlaces()
    ensures InPlace(PermitMoves(), 4) && |PermitMoves()| == 2
  {
    var moves := PermitMoves();
    assert Placed(PathUpdate(moves[0]), 4) && Placed(PathUpdate(moves[1]), 5);
  }

  lemma GSNPlaces()
    ensures InPlace(GSNMoves(), 6) && |GSNMoves()| == 1
  {
    var moves := GSNMoves();
    assert Placed(PathUpdate(moves[0]), 6);
  }

  lemma IntrospectionPlaces()
    ensures InPlace(IntrospectionMoves(), 7) && |IntrospectionMoves()| == 3
  {
    var moves := IntrospectionMoves();
    assert Placed(PathUpdate(moves[0]), 7) && Placed(PathUpdate(moves[1]), 8) && Placed(PathUpdate(moves[2]), 9);
  }

  lemma IntrospectionInterfacePlaces()
    ensures InPlace(IntrospectionInterfaceMoves(), 10) && |IntrospectionInterfaceMoves()| == 3
  {
    var moves := IntrospectionInterfaceMoves();
    assert Placed(PathUpdate(moves[0]), 10) && Placed(PathUpdate(moves[1]), 11);
    assert Placed(PathUpdate(moves[2]), 12);
  }

  lemma MathPlaces()
    ensures InPlace(MathMoves(), 13) && |MathMoves()| == 3
  {
    var moves := MathMoves();
    assert Placed(PathUpdate(moves[0]), 13) && Placed(PathUpdate(moves[1]), 14);
    assert Placed(PathUpdate(moves[2]), 15);
  }

  lemma EscrowPlaces()
    ensures InPlace(EscrowMoves(), 16) && |EscrowMoves()| == 2
  {
    var moves := EscrowMoves();
    assert Placed(PathUpdate(moves[0]), 16) && Placed(PathUpdate(moves[1]), 17);
  }

  lemma RefundEscrowPlaces()
    ensures InPlace(RefundEscrowMoves(), 18) && |RefundEscrowMoves()| == 1
  {
    var moves := RefundEscrowMoves();
    assert Placed(PathUpdate(moves[0]), 18);
  }

  lemma PaymentPlaces()
    ensures InPlace(PaymentMoves(), 19) && |PaymentMoves()| == 3
  {
    var moves := PaymentMoves();
    assert Placed(PathUpdate(moves[0]), 19) && Placed(PathUpdate(moves[1]), 20);
    assert Placed(PathUpdate(moves[2]), 21);
  }

  lemma ERC1155PresetPlaces()
    ensures InPlace(ERC1155PresetMoves(), 22) && |ERC1155PresetMoves()| == 1
  {
    var moves := ERC1155PresetMoves();
    assert Placed(PathUpdate(moves[0]), 22);
  }

  lemma ERC20PresetPlaces()
    ensures InPlace(ERC20PresetMoves(), 23) && |ERC20PresetMoves()| == 2
  {
    var moves := ERC20PresetMoves();
    assert Placed(PathUpdate(moves[0]), 23) && Placed(PathUpdate(moves[1]), 24);
  }

  lemma OtherPresetPlaces()
    ensures InPlace(OtherPresetMoves(), 25) && |OtherPresetMoves()| == 2
  {
    var moves := OtherPresetMoves();
    assert Placed(PathUpdate(moves[0]), 25) && Placed(PathUpdate(moves[1]), 26);
  }

  lemma BeaconPlaces()
    ensures InPlace(BeaconMoves(), 27) && |BeaconMoves()| == 2
  {
    var moves := BeaconMoves();
    assert Placed(PathUpdate(moves[0]), 27) && Placed(PathUpdate(moves[1]), 28);
  }

  lemma InitializablePlaces()
    ensures InPlace(InitializableMoves(), 29) && |InitializableMoves()| == 2
  {
    var moves := InitializableMoves();
    assert Placed(PathUpdate(moves[0]), 29) && Placed(PathUpdate(moves[1]), 30);
  }

  lemma TransparentPlaces()
    ensures InPlace(TransparentMoves(), 31) && |TransparentMoves()| == 2
  {
    var moves := TransparentMoves();
    assert Placed(PathUpdate(moves[0]), 31) && Placed(PathUpdate(moves[1]), 32);
  }

  lemma UpgradeableProxyPlaces()
    ensures InPlace(UpgradeableProxyMoves(), 33) && |UpgradeableProxyMoves()| == 2
  {
    var moves := UpgradeableProxyMoves();
    assert Placed(PathUpdate(moves[0]), 33) && Placed(PathUpdate(moves[1]), 34);
  }

  lemma ERC1155Places()
    ensures InPlace(ERC1155Moves(), 35) && |ERC1155Moves()| == 3
  {
    var moves := ERC1155Moves();
    assert Placed(PathUpdate(moves[0]), 35) && Placed(PathUpdate(moves[1]), 36);
    assert Placed(PathUpdate(moves[2]), 37);
  }

  lemma ERC1155ReceiverPlaces()
    ensures InPlace(ERC1155ReceiverMoves(), 38) && |ERC1155ReceiverMoves()| == 2
  {
    var moves := ERC1155ReceiverMoves();
    assert Placed(PathUpdate(moves[0]), 38) && Placed(PathUpdate(moves[1]), 39);
  }

  lemma ERC20Places()
    ensures InPlace(ERC20Moves(), 40) && |ERC20Moves()| == 2
  {
    var moves := ERC20Moves();
    assert Placed(PathUpdate(moves[0]), 40) && Placed(PathUpdate(moves[1]), 41);
  }

  lemma ERC20ExtensionPlaces()
    ensures InPlace(ERC20ExtensionMoves(), 42) && |ERC20ExtensionMoves()| == 2
  {
    var moves := ERC20ExtensionMoves();
    assert Placed(PathUpdate(moves[0]), 42) && Placed(PathUpdate(moves[1]), 43);
  }

  lemma ERC20UtilityPlaces()
    ensures InPlace(ERC20UtilityMoves(), 44) && |ERC20UtilityMoves()| == 2
  {
    var moves := ERC20UtilityMoves();
    assert Placed(PathUpdate(moves[0]), 44) && Placed(PathUpdate(moves[1]), 45);
  }

  lemma ERC721Places()
    ensures InPlace(ERC721Moves(), 46) && |ERC721Moves()| == 2
  {
    var moves := ERC721Moves();
    assert Placed(PathUpdate(moves[0]), 46) && Placed(PathUpdate(moves[1]), 47);
  }

  lemma ERC721PausablePlaces()
    ensures InPlace(ERC721PausableMoves(), 48) && |ERC721PausableMoves()| == 1
  {
    var moves := ERC721PausableMoves();
    assert Placed(PathUpdate(moves[0]), 48);
  }

  lemma ERC721InterfacePlaces()
    ensures InPlace(ERC721InterfaceMoves(), 49) && |ERC721InterfaceMoves()| == 2
  {
    var moves := ERC721InterfaceMoves();
    assert Placed(PathUpdate(moves[0]), 49) && Placed(PathUpdate(moves[1]), 50);
  }

  lemma StructPlaces()
    ensures InPlace(StructMoves(), 51) && |StructMoves()| == 2
  {
    var moves := StructMoves();
    assert Placed(PathUpdate(moves[0]), 51) && Placed(PathUpdate(moves[1]), 52);
  }

  lemma UtilityPlaces()
    ensures InPlace(UtilityMoves(), 53) && |UtilityMoves()| == 3
  {
    var moves := UtilityMoves();
    assert Placed(PathUpdate(moves[0]), 53) && Placed(PathUpdate(moves[1]), 54);
    assert Placed(PathUpdate(moves[2]), 55);
  }

  lemma InPlaceAppend(a: seq<Move>, b: seq<Move>) returns (all: seq<Move>)
    requires InPlace(a, 0) && InPlace(b, |a|)
    ensures all == a + b && InPlace(all, 0)
  {
    all := a + b;
    forall i | 0 <= i < |a + b|
      ensures Placed(PathUpdate((a + b)[i]), i) && Allowed((a + b)[i])
    {
      assert i >= |a| ==> Placed(PathUpdate(b[i - |a|]), |a| + (i - |a|));
    }
  }

  lemma AllInPlace()
    ensures InPlace(Moves(), 0)
  {
    var t := AccessMoves();
    AccessPlaces();
    EIP712Places();
    t := InPlaceAppend(t, EIP712Moves());
    PermitPlaces();
    t := InPlaceAppend(t, PermitMoves());
    GSNPlaces();
    t := InPlaceAppend(t, GSNMoves());
    IntrospectionPlaces();
    t := InPlaceAppend(t, IntrospectionMoves());
    IntrospectionInterfacePlaces();
    t := InPlaceAppend(t, IntrospectionInterfaceMoves());
    MathPlaces();
    t := InPlaceAppend(t, MathMoves());
    EscrowPlaces();
    t := InPlaceAppend(t, EscrowMoves());
    RefundEscrowPlaces();
    t := InPlaceAppend(t, RefundEscrowMoves());
    PaymentPlaces();
    t := InPlaceAppend(t, PaymentMoves());
    ERC1155PresetPlaces();
    t := InPlaceAppend(t, ERC1155PresetMoves());
    ERC20PresetPlaces();
    t := InPlaceAppend(t, ERC20PresetMoves());
    OtherPresetPlaces();
    t := InPlaceAppend(t, OtherPresetMoves());
    BeaconPlaces();
    t := InPlaceAppend(t, BeaconMoves());
    InitializablePlaces();
    t := InPlaceAppend(t, InitializableMoves());
    TransparentPlaces();
    t := InPlaceAppend(t, TransparentMoves());
    UpgradeableProxyPlaces();
    t := InPlaceAppend(t, UpgradeableProxyMoves());
    ERC1155Places();
    t := InPlaceAppend(t, ERC1155Moves());
    ERC1155ReceiverPlaces();
    t := InPlaceAppend(t, ERC1155ReceiverMoves());
    ERC20Places();
    t := InPlaceAppend(t, ERC20Moves());
    ERC20ExtensionPlaces();
    t := InPlaceAppend(t, ERC20ExtensionMoves());
    ERC20UtilityPlaces();
    t := InPlaceAppend(t, ERC20UtilityMoves());
    ERC721Places();
    t := InPlaceAppend(t, ERC721Moves());
    ERC721PausablePlaces();
    t := InPlaceAppend(t, ERC721PausableMoves());
    ERC721InterfacePlaces();
    t := InPlaceAppend(t, ERC721InterfaceMoves());
    StructPlaces();
    t := InPlaceAppend(t, StructMoves());
    UtilityPlaces();
    t := InPlaceAppend(t, UtilityMoves());
  }

  lemma PlainIsRelative(path: string)
    requires Plain(path)
    ensures IsRelativeFile(path)
  {
    var base := Base(path);
    assert base[|base| - 1] == path[|path| - 1] == 'l';
  }

  /** A table whose old paths have different places and whose new paths have none. */
  lemma InPlaceSuffices(moves: seq<Move>)
    requires InPlace(moves, 0)
    ensures var table := Entries(moves);
            RelativeFiles(table) && DistinctKeys(table) && Unchained(table)
  {
    var table := Entries(moves);
    forall e | e in table
      ensures IsRelativeFile(e.from) && IsRelativeFile(e.to) && Slot(e.from) != -1 == Slot(e.to)
    {
      var i: nat :| i < |table| && table[i] == e;
      assert Placed(PathUpdate(moves[i]), i);
      PlainIsRelative(e.from);
      PlainIsRelative(e.to);
    }
    forall i, j | 0 <= i < j < |table|
      ensures table[i].from != table[j].from
    {
      assert Placed(PathUpdate(moves[i]), i) && Placed(PathUpdate(moves[j]), j);
    }
  }

  /** The shipped table has distinct old paths, none of which is a new path. */
  lemma ShippedTable()
    ensures var table := PathUpdates();
            RelativeFiles(table) && DistinctKeys(table) && Unchained(table)
  {
    AllInPlace();
    InPlaceSuffices(Moves());
  }

  lemma InPlaceMigrates(moves: seq<Move>)
    requires InPlace(moves, 0)
    ensures Migrates(Entries(moves))
  {
    InPlaceSuffices(moves);
    MigrationConverges(Entries(moves));
  }

  /** Migration with the shipped table. */
  lemma ShippedMigration()
    ensures Migrates(PathUpdates())
  {
    AllInPlace();
    InPlaceMigrates(Moves());
  }

  // ---- the names of the files ----

  lemma BaseInDir(dir: string, name: string)
    requires '/' !in name
    ensures Base(dir + "/" + name) == name
    ensures Base(dir + "/draft-" + name) == "draft-" + name
  {
    BaseAfter(dir + "/", name);
    BaseAfter(dir + "/", "draft-" + name);
    assert dir + "/draft-" + name == (dir + "/") + ("draft-" + name);
  }

  /** A file that moves keeps its name, and a draft gets a mark. */
  lemma MoveKeepsName(m: Move)
    requires !m.Renamed? && '/' !in m.name
    ensures Base(PathUpdate(m).from) == m.name
    ensures Base(PathUpdate(m).to) == (if m.Drafted? then "draft-" else "") + m.name
  {
    BaseInDir(m.dir, m.name);
    BaseInDir(m.newDir, m.name);
    assert "" + m.name == m.name;
  }

  /** Every update of the table keeps the name of its file, but for drafts and for one that is renamed. */
  lemma ShippedNames(e: Entry)
    requires e in PathUpdates()
    ensures exists m :: e == PathUpdate(m) && Allowed(m)
  {
    AllInPlace();
  }
}
