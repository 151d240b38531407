/** Customer and agreement lookup of `internal/bot/agreements.go`, which expands
    a completed task into report rows. The database answer and the remote
    agreements service are inputs: the first a `Result` whose error may be
    "no rows", the second a function from request to `Result`. */
module Agreements {
  import opened Wrappers
  import opened Text

  /** `models.Customer`. An id of 0 means the id is unknown. */
  datatype Customer = Customer(id: int, fullname: string, contract: string, address: string, tariff: string)

  const EmptyCustomer := Customer(0, "", "", "", "")

  /** An agreement as the agreements service returns it. */
  datatype Agreement = Agreement(id: int, name: string, contract: string, address: string, tariff: string)

  /** `GetAgreementsRequest`: the customer is named by id or by full name. */
  datatype AgreementsRequest = ByCustomerId(customerId: int) | ByCustomerName(customerName: string)

  /** The service: an answer or the transport's error. */
  type AgreementsService = AgreementsRequest -> Result<seq<Agreement>, string>

  /** The database's error: no rows, or anything else. */
  datatype DbError = ErrNoRows | DbFailure(message: string)

  /** What the rows read of a `models.TaskDetails`; the date comes formatted. */
  datatype ReportTask = ReportTask(id: int, taskType: string, created: string, description: string, address: string)

  /** `report.ExcelRow`. */
  datatype ExcelRow = ExcelRow(
    id: int,
    taskType: string,
    created: string,
    description: string,
    address: string,
    customer: string,
    contract: string,
    tariff: string)

  const ServiceErrorPrefix := "failed to get response from hermes (GetAgreements): "
  const CustomerFieldsErrorPrefix := "failed to generate customer fields: "
  const Dash := "-"

  // ---------------------------------------------------------------------
  // Agreement selection

  /** `convertPbCustomerToModel`. */
  function ConvertAgreement(a: Agreement): Customer {
    Customer(a.id, a.name, a.contract, a.address, a.tariff)
  }

  function AgreementOf(c: Customer): Agreement {
    Agreement(c.id, c.fullname, c.contract, c.address, c.tariff)
  }

  /** The conversion keeps every field of the agreement. */
  lemma {:induction false} ConvertAgreementLossless(a: Agreement)
    ensures AgreementOf(ConvertAgreement(a)) == a
    ensures ConvertAgreement(a).address == a.address
  {
  }

  /** The request for a customer: by id when the id is known, by full name
      otherwise. */
  function RequestFor(c: Customer): (req: AgreementsRequest)
    ensures req.ByCustomerId? <==> c.id != 0
    ensures req.ByCustomerId? ==> req.customerId == c.id
    ensures req.ByCustomerName? ==> req.customerName == c.fullname
  {
    if c.id != 0 then ByCustomerId(c.id) else ByCustomerName(c.fullname)
  }

  /** The first agreement at the given address. */
  function FirstAtAddress(agreements: seq<Agreement>, address: string): (r: Option<Agreement>)
    ensures r.None? <==> forall i :: 0 <= i < |agreements| ==> agreements[i].address != address
    ensures r.Some? ==> exists i :: 0 <= i < |agreements| && agreements[i] == r.value &&
                                    r.value.address == address &&
                                    forall j :: 0 <= j < i ==> agreements[j].address != address
    decreases |agreements|
  {
    if |agreements| == 0 then None
    else if agreements[0].address == address then Some(agreements[0])
    else
      var r := FirstAtAddress(agreements[1..], address);
      assert forall i :: 1 <= i < |agreements| ==> agreements[i] == agreements[1..][i - 1];
      if r.Some? then
        var k :| 0 <= k < |agreements| - 1 && agreements[1..][k] == r.value && r.value.address == address &&
                 forall j :: 0 <= j < k ==> agreements[1..][j].address != address;
        assert agreements[k + 1] == r.value;
        r
      else r
  }

  /** The agreement chosen for a task: none when there is none, the only one
      whatever its address, and otherwise the first at the task's address, or
      none. */
  function SelectAgreement(agreements: seq<Agreement>, taskAddress: string): (c: Customer)
    ensures |agreements| == 0 ==> c == EmptyCustomer
    ensures |agreements| == 1 ==> c == ConvertAgreement(agreements[0])
    ensures |agreements| > 1 && (forall i :: 0 <= i < |agreements| ==> agreements[i].address != taskAddress) ==>
              c == EmptyCustomer
    ensures |agreements| > 1 && (exists i :: 0 <= i < |agreements| && agreements[i].address == taskAddress) ==>
              exists i :: 0 <= i < |agreements| && AgreementOf(c) == agreements[i] && c.address == taskAddress &&
                          forall j :: 0 <= j < i ==> agreements[j].address != taskAddress
  {
    if |agreements| == 0 then EmptyCustomer
    else if |agreements| == 1 then ConvertAgreement(agreements[0])
    else match FirstAtAddress(agreements, taskAddress)
      case Some(a) => ConvertAgreement(a)
      case None => EmptyCustomer
  }

  /** `AddContractToCustomer` with the service as input: the service's error,
      wrapped, or the selected agreement as a customer. */
  function AddContractToCustomer(customer: Customer, task: ReportTask, service: AgreementsService): (r: Result<Customer, string>)
    ensures service(RequestFor(customer)).Failure? ==>
              r == Failure(ServiceErrorPrefix + service(RequestFor(customer)).error)
    ensures service(RequestFor(customer)).Success? ==>
              r == Success(SelectAgreement(service(RequestFor(customer)).value, task.address))
  {
    match service(RequestFor(customer))
    case Failure(e) => Failure(ServiceErrorPrefix + e)
    case Success(agreements) => Success(SelectAgreement(agreements, task.address))
  }

  // ---------------------------------------------------------------------
  // Customers of a task

  /** The customers of a task, one per client in order, or the wrapped error
      of the first client whose lookup fails. */
  function Contracts(clients: seq<Customer>, task: ReportTask, service: AgreementsService): (r: Result<seq<Customer>, string>)
    ensures r.Success? ==> |r.value| == |clients|
    decreases |clients|
  {
    if |clients| == 0 then Success([])
    else
      match Contracts(clients[..|clients| - 1], task, service)
      case Failure(e) => Failure(e)
      case Success(done) =>
        match AddContractToCustomer(clients[|clients| - 1], task, service)
        case Failure(e) => Failure(CustomerFieldsErrorPrefix + e)
        case Success(c) => Success(done + [c])
  }

  /** The customers succeed exactly when every client's lookup succeeds, and
      then there is one per client, in order. */
  lemma {:induction false} ContractsSucceed(clients: seq<Customer>, task: ReportTask, service: AgreementsService)
    ensures var r := Contracts(clients, task, service);
            (r.Success? <==> forall i :: 0 <= i < |clients| ==> AddContractToCustomer(clients[i], task, service).Success?) &&
            (r.Success? ==> |r.value| == |clients| &&
                            forall i :: 0 <= i < |clients| ==> r.value[i] == AddContractToCustomer(clients[i], task, service).value)
    decreases |clients|
  {
    if |clients| > 0 {
      var n := |clients| - 1;
      var init := clients[..n];
      ContractsSucceed(init, task, service);
      var prev := Contracts(init, task, service);
      var step := AddContractToCustomer(clients[n], task, service);
      var r := Contracts(clients, task, service);
      if prev.Failure? {
        assert r.Failure?;
        var i :| 0 <= i < n && AddContractToCustomer(init[i], task, service).Failure?;
        assert init[i] == clients[i];
        assert AddContractToCustomer(clients[i], task, service).Failure?;
      } else if step.Failure? {
        assert r.Failure?;
      } else {
        assert r == Success(prev.value + [step.value]);
        forall i | 0 <= i < |clients|
          ensures AddContractToCustomer(clients[i], task, service).Success?
          ensures r.value[i] == AddContractToCustomer(clients[i], task, service).value
        {
          if i < n {
            assert init[i] == clients[i];
            assert r.value[i] == prev.value[i];
          }
        }
      }
    }
  }

  /** Once a prefix of the clients has failed, the whole list fails with the
      same error. */
  lemma {:induction false} ContractsFailureStays(clients: seq<Customer>, k: nat, task: ReportTask, service: AgreementsService)
    requires k <= |clients| && Contracts(clients[..k], task, service).Failure?
    ensures Contracts(clients, task, service) == Contracts(clients[..k], task, service)
    decreases |clients| - k
  {
    if k < |clients| {
      var next := clients[..k + 1];
      assert next[..k] == clients[..k];
      ContractsFailureStays(clients, k + 1, task, service);
    } else {
      assert clients[..k] == clients;
    }
  }

  function DbErrorText(taskId: int, message: string): string {
    "failed to get customers data from database, task ID '" + DecimalString(taskId) + "': " + message
  }

  /** `GetCustomersByTask`: no rows means no customers; another database error
      is wrapped; otherwise each client is completed with its agreement, and
      the first failure ends the loop. */
  method GetCustomersByTask(task: ReportTask, clients: Result<seq<Customer>, DbError>, service: AgreementsService)
    returns (r: Result<seq<Customer>, string>)
    ensures clients == Failure(ErrNoRows) ==> r == Success([])
    ensures clients.Failure? && clients.error.DbFailure? ==> r == Failure(DbErrorText(task.id, clients.error.message))
    ensures clients.Success? ==> r == Contracts(clients.value, task, service)
  {
    if clients.Failure? {
      if clients.error == ErrNoRows {
        return Success([]);
      }
      return Failure(DbErrorText(task.id, clients.error.message));
    }
    var cs := clients.value;
    var result: seq<Customer> := [];
    for i := 0 to |cs|
      invariant Contracts(cs[..i], task, service) == Success(result)
    {
      var perClient := AddContractToCustomer(cs[i], task, service);
      assert cs[..i + 1][..i] == cs[..i];
      if perClient.Failure? {
        ContractsFailureStays(cs, i + 1, task, service);
        return Failure(CustomerFieldsErrorPrefix + perClient.error);
      }
      result := result + [perClient.value];
    }
    assert cs[..|cs|] == cs;
    return Success(result);
  }

  // ---------------------------------------------------------------------
  // Report rows of a task

  /** The row of a task with one customer filled in. */
  function RowFor(task: ReportTask, customer: string, contract: string, tariff: string): ExcelRow {
    ExcelRow(task.id, task.taskType, task.created, task.description, task.address, customer, contract, tariff)
  }

  function CustomerRows(task: ReportTask, customers: seq<Customer>): seq<ExcelRow> {
    seq(|customers|, i requires 0 <= i < |customers| =>
      RowFor(task, customers[i].fullname, customers[i].contract, customers[i].tariff))
  }

  /** The rows of a task for its customers: one dash row without customers,
      and otherwise one row per customer. */
  function TaskRows(task: ReportTask, customers: seq<Customer>): seq<ExcelRow> {
    if |customers| == 0 then [RowFor(task, Dash, Dash, Dash)] else CustomerRows(task, customers)
  }

  /** Every row carries the task's own fields; there is at least one row, and
      exactly one per customer when there are customers, in their order. */
  lemma {:induction false} TaskRowsShape(task: ReportTask, customers: seq<Customer>)
    ensures var rows := TaskRows(task, customers);
            |rows| == (if |customers| == 0 then 1 else |customers|) &&
            (forall k :: 0 <= k < |rows| ==>
               rows[k].id == task.id && rows[k].taskType == task.taskType && rows[k].created == task.created &&
               rows[k].description == task.description && rows[k].address == task.address) &&
            (|customers| == 0 ==> rows[0].customer == Dash && rows[0].contract == Dash && rows[0].tariff == Dash) &&
            (forall k :: 0 <= k < |customers| ==>
               rows[k].customer == customers[k].fullname && rows[k].contract == customers[k].contract &&
               rows[k].tariff == customers[k].tariff)
  {
  }

  function RowsErrorText(taskId: int, message: string): string {
    "failed to get customers by task '" + DecimalString(taskId) + "': " + message
  }

  /** `getExcelRowsFromTask`: the customers' error, wrapped, or the task's
      rows. */
  method GetExcelRowsFromTask(task: ReportTask, clients: Result<seq<Customer>, DbError>, service: AgreementsService)
    returns (r: Result<seq<ExcelRow>, string>)
    ensures var customers := if clients.Success? then Contracts(clients.value, task, service)
                             else if clients.error == ErrNoRows then Success([])
                             else Failure(DbErrorText(task.id, clients.error.message));
            (customers.Failure? ==> r == Failure(RowsErrorText(task.id, customers.error))) &&
            (customers.Success? ==> r == Success(TaskRows(task, customers.value)))
  {
    var customers := GetCustomersByTask(task, clients, service);
    if customers.Failure? {
      return Failure(RowsErrorText(task.id, customers.error));
    }
    if |customers.value| == 0 {
      return Success([RowFor(task, Dash, Dash, Dash)]);
    }
    var cs := customers.value;
    var rows: seq<ExcelRow> := [];
    for i := 0 to |cs|
      invariant rows == CustomerRows(task, cs[..i])
    {
      rows := rows + [RowFor(task, cs[i].fullname, cs[i].contract, cs[i].tariff)];
    }
    assert cs[..|cs|] == cs;
    return Success(rows);
  }
}
