/** The web application's test mode: fixed sample data, mock contract
    calls answered from it, and named scenarios to switch between. The
    random draw that decides whether a mock call fails is a parameter. */
module TestData {
  import opened Common

  const SampleAddress: string := "0x71C7656EC7ab88b098defB751B7401B5f6d8976F"
  const UnregisteredAddress: string := "0x2546BcD3c84621e976D8185a91A922aE77ECEc30"

  /** A student as the mock contract reports one; amounts are the decimal
      strings the contract layer passes around. */
  datatype StudentData = StudentData(
    address: string, isRegistered: bool, balance: string, totalPointsEarned: string,
    totalPointsSpent: string, stakedPoints: string, achievementCount: nat)

  const SampleStudent := StudentData(SampleAddress, true, "250.0", "325.0", "75.0", "50.0", 5)
  const UnregisteredStudent := StudentData(UnregisteredAddress, false, "0", "0", "0", "0", 0)

  datatype Offer = Offer(id: int, name: string, pointsCost: string, isActive: bool)

  const CampusOffers: seq<Offer> := [
    Offer(0, "10% Cafeteria Discount", "100", true),
    Offer(1, "Bookstore Coupon", "200", true),
    Offer(2, "Printing Credits", "50", true),
    Offer(3, "Early Course Registration", "300", false),
    Offer(4, "Study Room Reservation", "75", true)
  ]

  datatype Achievement = Achievement(achievementType: string, pointsAwarded: string, achievementName: string, timestamp: string)

  const StudentAchievements: seq<Achievement> := [
    Achievement("ACADEMIC", "50", "Dean's List Spring 2025", "2025-01-15"),
    Achievement("SKILLS", "75", "Blockchain Development Certificate", "2025-02-03"),
    Achievement("LEADERSHIP", "100", "Student Council President", "2025-02-27"),
    Achievement("COMMUNITY", "50", "Campus Cleanup Volunteer", "2025-03-15"),
    Achievement("ACADEMIC", "50", "Perfect Attendance", "2025-04-01")
  ]

  /** The sample student's achievement count is the length of the list. */
  lemma SampleCountMatchesList()
    ensures SampleStudent.achievementCount == |StudentAchievements|
  {}

  datatype Summary = Summary(
    isRegistered: bool, totalPointsEarned: string, totalPointsSpent: string,
    currentBalance: string, stakedPoints: string, achievementCount: nat)

  function SummaryOf(s: StudentData): Summary {
    Summary(s.isRegistered, s.totalPointsEarned, s.totalPointsSpent, s.balance, s.stakedPoints, s.achievementCount)
  }

  /** `mockGetStudentSummary`: the sample student for the sample address,
      compared exactly, and the unregistered one for any other. */
  function StudentSummary(address: string): (r: Summary)
    ensures r.isRegistered <==> address == SampleAddress
    ensures address == SampleAddress ==> r == SummaryOf(SampleStudent)
    ensures address != SampleAddress ==> r == SummaryOf(UnregisteredStudent)
  {
    if address == SampleAddress then SummaryOf(SampleStudent) else SummaryOf(UnregisteredStudent)
  }

  /** What `mockGetStudentAchievement` yields: the entry, the "Achievement
      not found" error, or, for a negative index that passes the bound
      check, the error of reading a field of nothing. */
  datatype AchievementResult = Found(a: Achievement) | AchievementNotFound | ReadOfUndefined

  function StudentAchievement(address: string, achievementId: int): (r: AchievementResult)
    ensures r.Found? <==> address == SampleAddress && 0 <= achievementId < |StudentAchievements|
    ensures r.Found? ==> r.a == StudentAchievements[achievementId]
    ensures r == AchievementNotFound <==>
      address != SampleAddress || achievementId >= |StudentAchievements|
    ensures r == ReadOfUndefined <==> address == SampleAddress && achievementId < 0
  {
    if address == SampleAddress && achievementId < |StudentAchievements| then
      (if achievementId >= 0 then Found(StudentAchievements[achievementId]) else ReadOfUndefined)
    else AchievementNotFound
  }

  /** The options of `simulateAsyncResponse`; absent ones are None. */
  datatype AsyncOptions = AsyncOptions(delayMs: Option<int>, failureChance: Option<real>, errorMessage: Option<string>)

  const NoOptions := AsyncOptions(None, None, None)

  datatype Response<T> = Resolved(data: T) | Rejected(message: string)

  /** `simulateAsyncResponse` once its timer fires: `draw` is the value of
      the random draw, in [0, 1). An absent or zero chance never fails; an
      absent or empty message reads "Transaction failed". */
  function SimulateAsyncResponse<T>(data: T, options: AsyncOptions, draw: real): (r: Response<T>)
    requires 0.0 <= draw < 1.0
    ensures r.Rejected? <==> options.failureChance.Some? && draw < options.failureChance.value
    ensures r.Resolved? ==> r.data == data
    ensures r.Rejected? ==> r.message == (if Present(options.errorMessage) then options.errorMessage.value else "Transaction failed")
  {
    var chance := options.failureChance.GetOr(0.0);
    var message := if Present(options.errorMessage) then options.errorMessage.value else "Transaction failed";
    if draw < chance then Rejected(message) else Resolved(data)
  }

  /** A certain failure is certain and no chance is no failure, whatever
      the draw: the mocks below are deterministic. */
  lemma CertainOutcomes<T>(data: T, message: string, draw: real)
    requires 0.0 <= draw < 1.0 && message != ""
    ensures SimulateAsyncResponse(data, AsyncOptions(None, Some(1.0), Some(message)), draw) == Rejected(message)
    ensures SimulateAsyncResponse(data, NoOptions, draw) == Resolved(data)
  {}

  /** A rejection without a message, or with an empty one, reads
      "Transaction failed" (`errorMessage || "Transaction failed"`). */
  lemma DefaultRejectionMessage<T>(data: T, message: Option<string>, draw: real)
    requires 0.0 <= draw < 1.0 && (message.None? || message.value == "")
    ensures SimulateAsyncResponse(data, AsyncOptions(None, Some(1.0), message), draw) == Rejected("Transaction failed")
  {}

  /** `getEduPointsBalance` */
  function EduPointsBalance(address: string, draw: real): (r: Response<string>)
    requires 0.0 <= draw < 1.0
    ensures r == Resolved(if address == SampleAddress then "250.0" else "0")
  {
    SimulateAsyncResponse(if address == SampleAddress then SampleStudent.balance else "0", NoOptions, draw)
  }

  /** `redeemOffer`: the first offer with the id, the "Offer not found" and
      "Offer is not active" failures in that order, and the redeemed offer
      otherwise. The transaction hash is random and not modelled. */
  function RedeemOffer(offerId: int, draw: real): (r: Response<Offer>)
    requires 0.0 <= draw < 1.0
    ensures r == Rejected("Offer not found") <==> forall i :: 0 <= i < |CampusOffers| ==> CampusOffers[i].id != offerId
    ensures r == Rejected("Offer is not active") <==> exists i :: (0 <= i < |CampusOffers|
      && CampusOffers[i].id == offerId && !CampusOffers[i].isActive)
    ensures r.Resolved? ==> r.data in CampusOffers && r.data.id == offerId && r.data.isActive
  {
    var at := FindFirst(CampusOffers, (o: Offer) => o.id == offerId);
    if at.None? then
      SimulateAsyncResponse(CampusOffers[0], AsyncOptions(None, Some(1.0), Some("Offer not found")), draw)
    else
      var offer := CampusOffers[at.value];
      if !offer.isActive then
        SimulateAsyncResponse(offer, AsyncOptions(None, Some(1.0), Some("Offer is not active")), draw)
      else
        SimulateAsyncResponse(offer, NoOptions, draw)
  }

  /** Offer ids are the positions of the offers. */
  lemma OfferIdsArePositions()
    ensures forall i :: 0 <= i < |CampusOffers| ==> CampusOffers[i].id == i
  {}

  /** The redeemable offers are exactly the ids 0 to 4 except 3. */
  lemma RedeemableOffers(offerId: int, draw: real)
    requires 0.0 <= draw < 1.0
    ensures RedeemOffer(offerId, draw).Resolved? <==> 0 <= offerId < 5 && offerId != 3
    ensures offerId == 3 ==> RedeemOffer(offerId, draw) == Rejected("Offer is not active")
  {
    OfferIdsArePositions();
    var r := RedeemOffer(offerId, draw);
    if 0 <= offerId < 5 {
      assert CampusOffers[offerId].id == offerId;
    }
  }

  // ---- scenarios ----

  datatype WalletState = WalletState(isInstalled: bool, isConnected: bool, address: Option<string>, error: Option<string>)

  datatype Transaction = Transaction(kind: string, amount: string, description: string, timestamp: string)

  const TransactionHistory: seq<Transaction> := [
    Transaction("EARN", "50", "Dean's List Spring 2025", "2025-01-15"),
    Transaction("STAKE", "50", "Staked for 1 month", "2025-02-01"),
    Transaction("SPEND", "75", "Study Room Reservation", "2025-02-20"),
    Transaction("EARN", "100", "Student Council President", "2025-02-27"),
    Transaction("UNSTAKE", "52.5", "Unstaked with rewards", "2025-03-01")
  ]

  const NotInstalled := WalletState(false, false, None, Some("MetaMask or compatible wallet not found."))
  const NotConnected := WalletState(true, false, None, None)
  const Connected := WalletState(true, true, Some(SampleAddress), None)
  const WrongNetwork := WalletState(true, true, Some(SampleAddress),
    Some("You're not connected to Arbitrum L3. Please switch networks."))
  const ConnectionRejected := WalletState(true, false, None,
    Some("Connection request was rejected. Please approve the connection in your wallet."))

  datatype ScenarioData = ScenarioData(wallet: WalletState, student: Option<StudentData>,
                                       transactions: seq<Transaction>, offers: seq<Offer>)

  const Scenarios: map<string, ScenarioData> := map[
    "default" := ScenarioData(Connected, Some(SampleStudent), TransactionHistory, CampusOffers),
    "notInstalled" := ScenarioData(NotInstalled, None, [], CampusOffers),
    "notConnected" := ScenarioData(NotConnected, None, [], CampusOffers),
    "wrongNetwork" := ScenarioData(WrongNetwork, Some(SampleStudent), TransactionHistory, CampusOffers),
    "unregistered" := ScenarioData(Connected, Some(UnregisteredStudent), [], CampusOffers),
    "connectionRejected" := ScenarioData(ConnectionRejected, None, [], CampusOffers)
  ]

  /** The data of a scenario name, the default one for a name that is not
      a scenario. */
  function ScenarioFor(name: string): (d: ScenarioData)
    ensures name in Scenarios ==> d == Scenarios[name]
    ensures name !in Scenarios ==> d == Scenarios["default"]
  {
    if name in Scenarios then Scenarios[name] else Scenarios["default"]
  }

  /** In every scenario a student is present exactly when the wallet is
      connected, and a connected wallet holds the sample address. */
  lemma ScenariosConsistent(name: string)
    ensures var d := ScenarioFor(name);
      (d.student.Some? <==> d.wallet.isConnected)
      && (d.wallet.isConnected ==> d.wallet.address == Some(SampleAddress))
      && (d.transactions != [] ==> d.student == Some(SampleStudent))
  {}

  /** The hook's state: the current scenario name, which `switchScenario`
      changes, and the data it was created with, which it does not. */
  class TestMode {
    var scenario: string
    const data: ScenarioData

    /** `useTestMode`: no name or an empty one means "default". */
    constructor(scenarioName: Option<string>)
      ensures scenario == (if Present(scenarioName) then scenarioName.value else "default")
      ensures data == ScenarioFor(scenario)
    {
      var name := if Present(scenarioName) then scenarioName.value else "default";
      scenario := name;
      data := ScenarioFor(name);
    }

    /** `switchScenario`: records the new name as given, returns that
        scenario's data or the default's, and leaves `data` as it was. */
    method SwitchScenario(newScenario: string) returns (d: ScenarioData)
      modifies this
      ensures scenario == newScenario
      ensures d == ScenarioFor(newScenario)
    {
      scenario := newScenario;
      d := ScenarioFor(newScenario);
    }

    /** `getCurrentScenario` */
    method CurrentScenario() returns (name: string)
      ensures name == scenario
    {
      name := scenario;
    }
  }

  /** Switching to an unknown name reports that name as current while the
      data returned is the default scenario's, and the hook's own data is
      still that of the scenario it was opened with. */
  method SwitchToUnknown()
  {
    var mode := new TestMode(Some("wrongNetwork"));
    var d := mode.SwitchScenario("offline");
    var current := mode.CurrentScenario();
    assert current == "offline";
    assert d == Scenarios["default"];
    assert mode.data == Scenarios["wrongNetwork"];
    assert mode.data.wallet.error.Some? && d.wallet.error.None?;
  }
}
