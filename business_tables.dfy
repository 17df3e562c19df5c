/** The synonym tables a freshly constructed `BusinessVocabularyExpander` holds. */
module BusinessTables {
  import opened Vocabulary

  const BusinessExpansions: Table := map[
    "sold" := ["sales", "sales order", "sales invoice", "revenue", "selling"],
    "selling" := ["sales", "sales order", "sales invoice"],
    "sale" := ["sales", "sales order", "sales invoice"],
    "revenue" := ["sales", "sales invoice", "income"],
    "income" := ["sales", "sales invoice", "revenue"],
    "earnings" := ["sales", "sales invoice", "revenue"],
    "turnover" := ["sales", "sales invoice", "revenue"],
    "billed" := ["sales invoice", "invoice", "billing"],
    "invoiced" := ["sales invoice", "invoice", "billing"],
    "billing" := ["sales invoice", "invoice"],
    "quoted" := ["quotation", "quote", "sales quote"],
    "ordered" := ["sales order", "order", "purchase order"],
    "bought" := ["purchase", "purchase order", "purchase invoice", "procurement"],
    "purchasing" := ["purchase", "purchase order", "purchase invoice"],
    "procurement" := ["purchase", "purchase order", "supplier"],
    "sourcing" := ["purchase", "supplier", "procurement"],
    "acquired" := ["purchase", "purchase order", "asset"],
    "vendor" := ["supplier", "vendor master"],
    "outsourced" := ["supplier", "purchase order"],
    "paid" := ["payment", "payment entry", "receipt"],
    "payment" := ["payment entry", "receipt", "transaction"],
    "receipt" := ["payment entry", "sales invoice", "receipt"],
    "transaction" := ["payment entry", "journal entry"],
    "expense" := ["expense claim", "purchase invoice", "journal entry"],
    "cost" := ["expense", "purchase invoice", "cost center"],
    "spent" := ["expense", "payment", "purchase invoice"],
    "charged" := ["expense", "sales invoice", "fee"],
    "refunded" := ["payment entry", "credit note", "return"],
    "credited" := ["credit note", "payment entry", "journal entry"],
    "debited" := ["journal entry", "payment entry", "invoice"],
    "stocked" := ["stock", "stock entry", "inventory"],
    "inventory" := ["stock", "stock entry", "item"],
    "stored" := ["stock", "warehouse", "stock entry"],
    "warehouse" := ["stock", "stock entry", "location"],
    "shipped" := ["delivery", "delivery note", "shipment"],
    "delivered" := ["delivery", "delivery note", "fulfillment"],
    "dispatched" := ["delivery", "delivery note", "shipment"],
    "received" := ["purchase receipt", "stock entry", "delivery"],
    "transferred" := ["stock entry", "material transfer", "stock transfer"],
    "manufactured" := ["work order", "manufacturing", "production"],
    "produced" := ["work order", "manufacturing", "production"],
    "assembled" := ["work order", "bom", "manufacturing"],
    "client" := ["customer", "client", "account"],
    "account" := ["customer", "account", "client"],
    "prospect" := ["lead", "opportunity", "prospect"],
    "lead" := ["lead", "opportunity", "prospect"],
    "opportunity" := ["opportunity", "lead", "deal"],
    "deal" := ["opportunity", "sales order", "contract"],
    "contract" := ["contract", "agreement", "sales order"],
    "employee" := ["employee", "staff", "personnel"],
    "staff" := ["employee", "staff", "personnel"],
    "personnel" := ["employee", "staff", "hr"],
    "worker" := ["employee", "staff", "labor"],
    "contractor" := ["employee", "supplier", "contractor"],
    "payroll" := ["salary", "payroll entry", "employee"],
    "salary" := ["salary slip", "payroll", "compensation"],
    "wage" := ["salary slip", "payroll", "hourly rate"],
    "attended" := ["attendance", "employee", "timesheet"],
    "worked" := ["timesheet", "attendance", "employee"],
    "project" := ["project", "task", "milestone"],
    "task" := ["task", "project", "activity"],
    "activity" := ["task", "timesheet", "project"],
    "milestone" := ["project", "task", "deadline"],
    "assigned" := ["task", "project", "employee"],
    "completed" := ["task", "project", "status"],
    "asset" := ["asset", "fixed asset", "equipment"],
    "equipment" := ["asset", "fixed asset", "machinery"],
    "machinery" := ["asset", "equipment", "manufacturing"],
    "depreciated" := ["asset", "depreciation", "fixed asset"],
    "maintained" := ["asset", "maintenance", "equipment"],
    "communicated" := ["communication", "email", "contact"],
    "contacted" := ["communication", "contact", "call log"],
    "supported" := ["support ticket", "issue", "help desk"],
    "resolved" := ["support ticket", "issue", "task"],
    "escalated" := ["issue", "support ticket", "escalation"],
    "inspected" := ["quality inspection", "inspection", "quality"],
    "quality" := ["quality inspection", "qc", "standards"],
    "approved" := ["approval", "workflow", "authorization"],
    "rejected" := ["rejection", "quality inspection", "approval"],
    "compliant" := ["compliance", "standard", "regulation"],
    "created" := ["new", "creation", "setup"],
    "updated" := ["modification", "change", "edit"],
    "modified" := ["update", "change", "edit"],
    "deleted" := ["removal", "cancellation", "void"],
    "cancelled" := ["cancellation", "void", "deletion"],
    "submitted" := ["submission", "approval", "finalization"],
    "drafted" := ["draft", "preparation", "initial"],
    "processed" := ["processing", "execution", "completion"],
    "pending" := ["waiting", "queue", "backlog"],
    "overdue" := ["late", "delayed", "past due"],
    "total" := ["sum", "aggregate", "overall"],
    "average" := ["mean", "avg", "typical"],
    "maximum" := ["max", "highest", "peak"],
    "minimum" := ["min", "lowest", "least"],
    "count" := ["number", "quantity", "tally"],
    "percentage" := ["percent", "ratio", "proportion"],
    "growth" := ["increase", "expansion", "improvement"],
    "decline" := ["decrease", "reduction", "drop"],
    "daily" := ["day", "per day", "everyday"],
    "weekly" := ["week", "per week", "weekly"],
    "monthly" := ["month", "per month", "monthly"],
    "quarterly" := ["quarter", "q1", "q2", "q3", "q4"],
    "yearly" := ["year", "annual", "per year"],
    "current" := ["present", "now", "today"],
    "recent" := ["latest", "new", "fresh"],
    "historical" := ["past", "previous", "old"]
  ]

  const IndustryExpansions: map<string, Table> := map[
    "manufacturing" := map[
      "produced" := ["manufactured", "work order", "production order"],
      "assembled" := ["work order", "bom", "manufacturing"],
      "quality" := ["quality inspection", "qc check", "testing"]
    ],
    "retail" := map[
      "sold" := ["pos invoice", "retail sale", "transaction"],
      "returned" := ["sales return", "refund", "exchange"],
      "discount" := ["pricing rule", "promotion", "offer"]
    ],
    "services" := map[
      "delivered" := ["service delivery", "project delivery", "completion"],
      "billed" := ["timesheet", "service invoice", "billing"],
      "consulted" := ["consultation", "advisory", "service"]
    ]
  ]

  /** A freshly constructed `BusinessVocabularyExpander()`. */
  const DefaultExpander: Expander := Expander(BusinessExpansions, IndustryExpansions)
}
