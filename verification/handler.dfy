/**
  The command handler that creates an installment commitment: it checks the
  referenced user and account, validates the commitment, stores it, expands it
  into postings and asks the job scheduler to post each one at its date.

  Repositories and the job client are collaborators whose code is not part of
  this model: lookups are read from maps, and the two writes the handler makes
  (the insert and each schedule request) are recorded, in order, as a trace of
  effects.
*/
module InstallmentHandler {
  import opened Formatting
  import opened Options
  import opened Dates
  import opened Installments

  datatype User = User(id: Guid)
  datatype Account = Account(id: Guid)

  /** What the user and account repositories hold, by id. */
  datatype Repositories = Repositories(users: map<Guid, User>, accounts: map<Guid, Account>)

  datatype CreateInstallmentCommand = CreateInstallmentCommand(
    value: Decimal,
    months: int,
    startMonth: int,
    description: string,
    category: Category,
    kind: MovimentType,
    accountId: Guid,
    userId: Guid)

  /** What the commitment's constructor computes on its own: identity, creation time, end month, installment value. */
  datatype ConstructorOutputs = ConstructorOutputs(id: Guid, createdOn: Date, endMonth: int, installmentsValue: Decimal)

  /** The commitment built from a command, completed with what its constructor computes. */
  function NewCommitment(cmd: CreateInstallmentCommand, built: ConstructorOutputs): Commitment {
    Commitment(built.id, cmd.value, cmd.months, cmd.startMonth, built.endMonth, cmd.description,
               cmd.category, cmd.kind, cmd.accountId, cmd.userId, built.createdOn, built.installmentsValue)
  }

  /** A write the handler makes: storing the commitment, or scheduling a balance update for a posting at a date. */
  datatype Effect = Insert(commitment: Commitment) | Schedule(moviment: Moviment, at: Date)

  /**
    The value `Handle` returns, or the exception it throws: one raised by the
    handler itself with its message, or the `ArgumentOutOfRangeException` of
    `DateTime.AddMonths` (whose message text is not modelled).
  */
  datatype Result<T> = Ok(value: T) | Failed(message: string) | DateOutOfRange

  /** The writes made, in order, and how the call ended. */
  datatype Outcome = Outcome(trace: seq<Effect>, result: Result<Guid>)

  const InvalidUser := "Invalid user"
  const InvalidAccount := "Invalid account"
  const ErrorSeparator := " \n "

  /** `effects` schedule the postings of `c`, in order, each at the posting's own date. */
  predicate SchedulesExpansion(effects: seq<Effect>, c: Commitment, show: Decimal -> string) {
    && |effects| == InstallmentCount(c)
    && forall k :: 0 <= k < |effects| ==>
         && effects[k].Schedule?
         && effects[k].at == effects[k].moviment.createdOn
         && IsInstallmentOf(effects[k].moviment, c, show, k)
  }

  /** Appends one schedule request per posting, in list order, each at the posting's date. */
  method ScheduleFutureMoviments(trace: seq<Effect>, moviments: seq<Moviment>) returns (after: seq<Effect>)
    ensures |after| == |trace| + |moviments|
    ensures after[..|trace|] == trace
    ensures forall k :: 0 <= k < |moviments| ==>
              after[|trace| + k] == Schedule(moviments[k], moviments[k].createdOn)
  {
    after := trace;
    var i := 0;
    while i < |moviments|
      invariant 0 <= i <= |moviments|
      invariant |after| == |trace| + i
      invariant after[..|trace|] == trace
      invariant forall k :: 0 <= k < i ==> after[|trace| + k] == Schedule(moviments[k], moviments[k].createdOn)
    {
      var moviment := moviments[i];
      after := after + [Schedule(moviment, moviment.createdOn)];
      i := i + 1;
    }
  }

  /**
    Handles the command. `validate` stands for the commitment validator and
    yields its error messages (none when the commitment is valid); `show`
    renders the decimal total into the postings' labels.
  */
  method Handle(cmd: CreateInstallmentCommand, repos: Repositories, built: ConstructorOutputs,
                validate: Commitment -> seq<string>, show: Decimal -> string) returns (o: Outcome)
    // The handler's own failures are raised before any write.
    ensures cmd.userId !in repos.users ==> o == Outcome([], Failed(InvalidUser))
    ensures cmd.userId in repos.users && cmd.accountId !in repos.accounts ==>
              o == Outcome([], Failed(InvalidAccount))
    ensures cmd.userId in repos.users && cmd.accountId in repos.accounts && validate(NewCommitment(cmd, built)) != [] ==>
              o == Outcome([], Failed(Join(ErrorSeparator, validate(NewCommitment(cmd, built)))))
    ensures o.result.Failed? ==> o.trace == []
    // A month the calendar cannot represent fails after the commitment is stored, with nothing scheduled.
    ensures && cmd.userId in repos.users && cmd.accountId in repos.accounts
            && validate(NewCommitment(cmd, built)) == [] && !ExpansionFits(NewCommitment(cmd, built)) ==>
              o == Outcome([Insert(NewCommitment(cmd, built))], DateOutOfRange)
    // Success exactly when both lookups succeed, the validator has nothing to say and every date exists.
    ensures o.result.Ok? <==>
              && cmd.userId in repos.users && cmd.accountId in repos.accounts
              && validate(NewCommitment(cmd, built)) == [] && ExpansionFits(NewCommitment(cmd, built))
    // On success: the commitment's id, one insert first, then its postings scheduled in order.
    ensures o.result.Ok? ==>
              && o.result.value == built.id
              && |o.trace| >= 1
              && o.trace[0] == Insert(NewCommitment(cmd, built))
              && SchedulesExpansion(o.trace[1..], NewCommitment(cmd, built), show)
    // Whatever happens, the only insert comes first and everything after it is a schedule request.
    ensures o.trace != [] ==> o.trace[0] == Insert(NewCommitment(cmd, built))
    ensures forall i :: 0 < i < |o.trace| ==> o.trace[i].Schedule?
  {
    if cmd.userId !in repos.users {
      return Outcome([], Failed(InvalidUser));
    }
    if cmd.accountId !in repos.accounts {
      return Outcome([], Failed(InvalidAccount));
    }
    var commitment := NewCommitment(cmd, built);
    var errors := validate(commitment);
    if errors != [] {
      return Outcome([], Failed(Join(ErrorSeparator, errors)));
    }
    var inserted := [Insert(commitment)];
    var expanded := SplitIntoMoviments(commitment, show);
    if expanded.None? {
      return Outcome(inserted, DateOutOfRange);
    }
    var futureMoviments := expanded.value;
    var trace := ScheduleFutureMoviments(inserted, futureMoviments);
    forall k | 0 <= k < |futureMoviments|
      ensures trace[1..][k] == Schedule(futureMoviments[k], futureMoviments[k].createdOn)
      ensures IsInstallmentOf(futureMoviments[k], commitment, show, k)
    {
      assert trace[1..][k] == trace[|inserted| + k];
    }
    o := Outcome(trace, Ok(commitment.id));
  }
}
