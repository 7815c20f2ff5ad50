/** Proactive Support: the stored contact settings and the rule that
    validates an update to them, the availability decision, the fixed field
    list, and the checks and normalisation `new_ticket` applies before it
    submits a ticket. Middleware calls (vendor name, edition, licence, serial
    number, version) are parameters. */
module Support {

  import opened Wrappers
  import opened Values
  import opened HexText

  datatype ValidationError = ValidationError(attribute: string, message: string)

  const ContactKeys: seq<string> := ["name", "title", "email", "phone"]
  const Prefixes: seq<string> := ["", "secondary_"]

  /** The eight contact fields, in the order the update checks them: each
      key without and then with the `secondary_` prefix. */
  function ValidatedFields(): (fields: seq<string>)
    ensures |fields| == |ContactKeys| * |Prefixes|
  {
    ["name", "secondary_name", "title", "secondary_title",
     "email", "secondary_email", "phone", "secondary_phone"]
  }

  /** Field 2i+j is key i with prefix j. */
  lemma ValidatedFieldAt(i: nat, j: nat)
    requires i < |ContactKeys| && j < |Prefixes|
    ensures ValidatedFields()[2 * i + j] == Prefixes[j] + ContactKeys[i]
  {
    var f := ValidatedFields();
    if j == 0 {
      assert "" + ContactKeys[i] == ContactKeys[i];
    } else if i == 0 {
      assert f[1] == "secondary_" + "name";
    } else if i == 1 {
      assert f[3] == "secondary_" + "title";
    } else if i == 2 {
      assert f[5] == "secondary_" + "email";
    } else {
      assert f[7] == "secondary_" + "phone";
    }
  }

  /** A stored settings row: `enabled`, `id` and the eight contact fields. */
  predicate IsConfig(row: map<string, Value>) {
    "enabled" in row && "id" in row &&
    forall i :: 0 <= i < |ValidatedFields()| ==> ValidatedFields()[i] in row
  }

  function RequiredError(field: string): ValidationError {
    ValidationError("support_update." + field, "This field is required")
  }

  lemma RequiredErrorInjective(f: string, g: string)
    requires RequiredError(f) == RequiredError(g)
    ensures f == g
  {
    var p := "support_update.";
    assert f == (p + f)[|p|..];
    assert g == (p + g)[|p|..];
  }

  /** One error per field, in order, whose value in `config` is falsy. */
  function MissingFields(config: map<string, Value>, fields: seq<string>): (errors: seq<ValidationError>)
    requires forall i :: 0 <= i < |fields| ==> fields[i] in config
    ensures |errors| <= |fields|
    decreases |fields|
  {
    if fields == [] then []
    else
      var last := fields[|fields| - 1];
      MissingFields(config, fields[..|fields| - 1]) +
      (if Truthy(config[last]) then [] else [RequiredError(last)])
  }

  /** Checking one more field appends at most its own error. */
  lemma MissingFieldsStep(config: map<string, Value>, fields: seq<string>, n: nat)
    requires forall i :: 0 <= i < |fields| ==> fields[i] in config
    requires n < |fields|
    ensures MissingFields(config, fields[..n + 1]) ==
      MissingFields(config, fields[..n]) + (if Truthy(config[fields[n]]) then [] else [RequiredError(fields[n])])
  {
    assert fields[..n + 1][..n] == fields[..n];
  }

  /** Iteration (i, j) of the validation loop checks validated field 2i+j,
      which the row holds. */
  lemma ValidatedFieldStep(config: map<string, Value>, i: nat, j: nat)
    requires IsConfig(config) && i < |ContactKeys| && j < |Prefixes|
    ensures Prefixes[j] + ContactKeys[i] in config
    ensures var field := Prefixes[j] + ContactKeys[i];
      MissingFields(config, ValidatedFields()[..2 * i + j + 1]) ==
      MissingFields(config, ValidatedFields()[..2 * i + j]) +
      (if Truthy(config[field]) then [] else [RequiredError(field)])
  {
    ValidatedFieldAt(i, j);
    MissingFieldsStep(config, ValidatedFields(), 2 * i + j);
  }

  /** A field gets an error exactly when it is listed and its value is falsy. */
  lemma {:induction false} MissingFieldsIff(config: map<string, Value>, fields: seq<string>, f: string)
    requires forall i :: 0 <= i < |fields| ==> fields[i] in config
    ensures RequiredError(f) in MissingFields(config, fields) <==> f in fields && !Truthy(config[f])
    decreases |fields|
  {
    if fields != [] {
      var init, last := fields[..|fields| - 1], fields[|fields| - 1];
      MissingFieldsIff(config, init, f);
      assert fields == init + [last];
      if RequiredError(f) == RequiredError(last) {
        RequiredErrorInjective(f, last);
      }
    }
  }

  /** The errors `do_update` reports for the merged settings. */
  function UpdateErrors(config: map<string, Value>): seq<ValidationError>
    requires IsConfig(config)
  {
    if Truthy(config["enabled"]) then MissingFields(config, ValidatedFields()) else []
  }

  /** With support disabled nothing is reported; with it enabled, every
      empty contact field is reported and nothing else. */
  lemma UpdateErrorsIff(config: map<string, Value>, f: string)
    requires IsConfig(config)
    ensures !Truthy(config["enabled"]) ==> UpdateErrors(config) == []
    ensures RequiredError(f) in UpdateErrors(config) <==>
      Truthy(config["enabled"]) && f in ValidatedFields() && !Truthy(config[f])
  {
    MissingFieldsIff(config, ValidatedFields(), f);
  }

  /** The validation loop of `do_update`: for each contact key, the field
      without and with the `secondary_` prefix. */
  method CollectErrors(configData: map<string, Value>) returns (verrors: seq<ValidationError>)
    requires IsConfig(configData)
    ensures verrors == UpdateErrors(configData)
  {
    verrors := [];
    if Truthy(configData["enabled"]) {
      ghost var fields := ValidatedFields();
      var i := 0;
      while i < |ContactKeys|
        invariant 0 <= i <= |ContactKeys|
        invariant verrors == MissingFields(configData, fields[..2 * i])
      {
        var j := 0;
        while j < |Prefixes|
          invariant 0 <= j <= |Prefixes|
          invariant verrors == MissingFields(configData, fields[..2 * i + j])
        {
          var field := Prefixes[j] + ContactKeys[i];
          ValidatedFieldStep(configData, i, j);
          if !Truthy(configData[field]) {
            verrors := verrors + [RequiredError(field)];
          }
          j := j + 1;
        }
        assert 2 * i + j == 2 * (i + 1);
        i := i + 1;
      }
      assert fields[..8] == fields;
    }
  }

  /** The settings row kept in the datastore. */
  class SupportService {

    var row: map<string, Value>

    ghost predicate Valid()
      reads this
    {
      IsConfig(row)
    }

    constructor (initial: map<string, Value>)
      requires IsConfig(initial)
      ensures Valid() && row == initial
    {
      row := initial;
    }

    /** `SupportService.do_update`: merge the update into the stored row
        key by key, validate the result, and store it only when nothing was
        reported. */
    method DoUpdate(data: map<string, Value>) returns (r: Result<map<string, Value>, seq<ValidationError>>)
      requires Valid()
      modifies this
      ensures Valid()
      ensures r.Failure? <==> UpdateErrors(old(row) + data) != []
      ensures r.Failure? ==> r.error == UpdateErrors(old(row) + data) && row == old(row)
      ensures r.Success? ==> row == old(row) + data && r.value == row
      ensures forall k :: k in old(row) && k !in data ==> k in row && row[k] == old(row)[k]
    {
      var configData := row + data;
      assert IsConfig(configData);
      var verrors := CollectErrors(configData);
      if verrors != [] {
        return Failure(verrors);
      }
      row := configData;
      r := Success(row);
    }
  }

  // ------------------------------------------------------------ availability

  datatype License = License(contractType: string, customerName: string)

  /** The result of `system.vendor.name` is truthy: a non-empty name. */
  predicate HasVendor(vendor: Option<string>) {
    vendor.Some? && vendor.value != ""
  }

  /** `is_available`: no vendor, the enterprise edition, and a SILVER or
      GOLD support contract. */
  function IsAvailable(vendor: Option<string>, isEnterprise: bool, license: Option<License>): (available: bool)
    ensures available <==>
      !HasVendor(vendor) && isEnterprise && license.Some? && license.value.contractType in {"SILVER", "GOLD"}
  {
    if HasVendor(vendor) then false
    else if !isEnterprise then false
    else
      match license
      case None => false
      case Some(l) => l.contractType in ["SILVER", "GOLD"]
  }

  /** `is_available_and_enabled`: Python's `and` of the availability and
      the stored `enabled` value, so the result is `False` or that value. */
  function IsAvailableAndEnabled(vendor: Option<string>, isEnterprise: bool, license: Option<License>,
                                 config: map<string, Value>): (r: Value)
    requires IsConfig(config)
    ensures r == Bool(false) || r == config["enabled"]
    ensures Truthy(r) <==> IsAvailable(vendor, isEnterprise, license) && Truthy(config["enabled"])
  {
    var available := IsAvailable(vendor, isEnterprise, license);
    if !available then Bool(available) else config["enabled"]
  }

  /** `fields`: the contact fields with their titles. */
  function Fields(): (pairs: seq<(string, string)>)
    ensures |pairs| == |ValidatedFields()|
  {
    [("name", "Contact Name"),
     ("title", "Contact Title"),
     ("email", "Contact E-mail"),
     ("phone", "Contact Phone"),
     ("secondary_name", "Secondary Contact Name"),
     ("secondary_title", "Secondary Contact Title"),
     ("secondary_email", "Secondary Contact E-mail"),
     ("secondary_phone", "Secondary Contact Phone")]
  }

  /** The first four listed fields are the contact keys; the last four are
      their secondary versions. */
  lemma FieldsPairUp(i: nat)
    requires i < |ContactKeys|
    ensures Fields()[i].0 == ContactKeys[i]
    ensures Fields()[i + 4].0 == "secondary_" + Fields()[i].0
  {
    var f := Fields();
    if i == 0 {
      assert f[4].0 == "secondary_" + "name";
    } else if i == 1 {
      assert f[5].0 == "secondary_" + "title";
    } else if i == 2 {
      assert f[6].0 == "secondary_" + "email";
    } else {
      assert f[7].0 == "secondary_" + "phone";
    }
  }

  /** A secondary field's title is its primary's with "Secondary " before
      it. */
  lemma FieldsSecondaryTitle(i: nat)
    requires i < |ContactKeys|
    ensures Fields()[i + 4].1 == "Secondary " + Fields()[i].1
  {
    var f := Fields();
    if i == 0 {
      assert f[4].1 == "Secondary " + "Contact Name";
    } else if i == 1 {
      assert f[5].1 == "Secondary " + "Contact Title";
    } else if i == 2 {
      assert f[6].1 == "Secondary " + "Contact E-mail";
    } else {
      assert f[7].1 == "Secondary " + "Contact Phone";
    }
  }

  /** Where the i-th listed field sits among the validated fields. */
  function ValidatedPosition(i: nat): nat {
    if i < 4 then 2 * i else 2 * (i - 4) + 1
  }

  /** The listed fields are the validated fields in another order:
      `ValidatedPosition` is a one-to-one map between them. */
  lemma FieldsAreValidated()
    ensures forall i :: 0 <= i < 8 ==>
      ValidatedPosition(i) < 8 && Fields()[i].0 == ValidatedFields()[ValidatedPosition(i)]
    ensures forall i, j :: 0 <= i < 8 && 0 <= j < 8 && ValidatedPosition(i) == ValidatedPosition(j) ==> i == j
  {
    forall i | 0 <= i < 8
      ensures Fields()[i].0 == ValidatedFields()[ValidatedPosition(i)]
    {
      if i < 4 {
        ValidatedFieldAt(i, 0);
        assert "" + ContactKeys[i] == ContactKeys[i];
      } else {
        ValidatedFieldAt(i - 4, 1);
      }
    }
  }

  // -------------------------------------------------------------- new ticket

  /** What `new_ticket` asks the middleware for before it submits. */
  datatype TicketEnv = TicketEnv(
    vendor: Option<string>,
    isEnterprise: bool,
    serialNumber: Value,
    license: Option<License>,
    product: string,
    versionShort: string)

  /** The request `new_ticket` would post: the proxy path, the payload, and
      the popped `attach_debug` flag. */
  datatype Ticket = Ticket(swName: string, payload: map<string, Value>, attachDebug: Value)

  function SoftwareName(isEnterprise: bool): string {
    if isEnterprise then "truenas" else "freenas"
  }

  function RequiredAttrs(isEnterprise: bool): seq<string> {
    if SoftwareName(isEnterprise) == "freenas" then ["type", "token"]
    else ["category", "phone", "name", "email", "criticality", "environment"]
  }

  /** The position of the first attribute missing from `data`. */
  function FirstMissing(attrs: seq<string>, data: map<string, Value>): (m: Option<nat>)
    ensures m.None? <==> forall i :: 0 <= i < |attrs| ==> attrs[i] in data
    ensures m.Some? ==>
      m.value < |attrs| && attrs[m.value] !in data &&
      forall i :: 0 <= i < m.value ==> attrs[i] in data
    decreases |attrs|
  {
    if attrs == [] then None
    else if attrs[0] !in data then Some(0)
    else match FirstMissing(attrs[1..], data)
      case None => None
      case Some(k) => Some(k + 1)
  }

  /** The ticket arguments always carry `attach_debug`, and a truthy `type`
      is a string. */
  predicate TicketArgs(data: map<string, Value>) {
    "attach_debug" in data && ("type" in data && Truthy(data["type"]) ==> data["type"].Str?)
  }

  function CompanyName(license: Option<License>): string {
    if license.Some? then license.value.customerName else "Unknown"
  }

  /** The ticket `new_ticket` builds from its arguments, or the message of
      the error it raises. */
  function TicketFor(data: map<string, Value>, env: TicketEnv): (r: Result<Ticket, string>)
    requires TicketArgs(data)
    ensures HasVendor(env.vendor) ==> r.Failure?
    ensures r.Success? ==>
      r.value.attachDebug == data["attach_debug"] && "attach_debug" !in r.value.payload &&
      "version" in r.value.payload
  {
    if HasVendor(env.vendor) then
      Failure("Support is not available for this product (" + env.vendor.value + ")")
    else
      var swName := SoftwareName(env.isEnterprise);
      var required := RequiredAttrs(env.isEnterprise);
      var extended :=
        if env.isEnterprise then data["serial" := env.serialNumber]["company" := Str(CompanyName(env.license))]
        else data;
      match FirstMissing(required, extended)
      case Some(k) => Failure(required[k] + " is required")
      case None =>
        var versioned := extended["version" := Str(env.product + "-" + env.versionShort)];
        var payload := versioned - {"attach_debug"};
        var typed :=
          if "type" in payload && Truthy(payload["type"]) then payload["type" := Str(Lower(payload["type"].s))]
          else payload;
        Success(Ticket(swName, typed, data["attach_debug"]))
  }

  /** Attributes present in one map exactly when in the other have the same
      first missing one. */
  lemma {:induction false} FirstMissingSameKeys(attrs: seq<string>, a: map<string, Value>, b: map<string, Value>)
    requires forall i :: 0 <= i < |attrs| ==> (attrs[i] in a <==> attrs[i] in b)
    ensures FirstMissing(attrs, a) == FirstMissing(attrs, b)
    decreases |attrs|
  {
    if attrs != [] {
      FirstMissingSameKeys(attrs[1..], a, b);
    }
  }

  /** A vendor blocks every ticket; otherwise the ticket is built exactly
      when every required attribute is present in the arguments, and the
      error names the first required attribute they lack. */
  lemma TicketOutcome(data: map<string, Value>, env: TicketEnv)
    requires TicketArgs(data)
    ensures var r := TicketFor(data, env);
      var required := RequiredAttrs(env.isEnterprise);
      (HasVendor(env.vendor) ==> r.Failure?) &&
      (r.Success? <==> !HasVendor(env.vendor) && forall i :: 0 <= i < |required| ==> required[i] in data) &&
      (!HasVendor(env.vendor) && r.Failure? ==>
         FirstMissing(required, data).Some? &&
         r.error == required[FirstMissing(required, data).value] + " is required")
  {
    var required := RequiredAttrs(env.isEnterprise);
    if !HasVendor(env.vendor) && env.isEnterprise {
      var extended := data["serial" := env.serialNumber]["company" := Str(CompanyName(env.license))];
      assert forall i :: 0 <= i < |required| ==> (required[i] in data <==> required[i] in extended);
      FirstMissingSameKeys(required, data, extended);
    }
  }

  /** What a built ticket carries: exactly the arguments without
      `attach_debug`, plus the version and, on the enterprise edition, the
      serial number and company; a truthy type lower-cased, a falsy one and
      every other argument unchanged. */
  lemma TicketPayload(data: map<string, Value>, env: TicketEnv)
    requires TicketArgs(data) && TicketFor(data, env).Success?
    ensures var t := TicketFor(data, env).value;
      t.swName == SoftwareName(env.isEnterprise) &&
      t.attachDebug == data["attach_debug"] &&
      (forall k :: k in t.payload <==>
         (k in data && k != "attach_debug") || k == "version" ||
         (env.isEnterprise && (k == "serial" || k == "company"))) &&
      t.payload["version"] == Str(env.product + "-" + env.versionShort) &&
      (env.isEnterprise ==>
         t.payload["serial"] == env.serialNumber &&
         t.payload["company"] == Str(CompanyName(env.license))) &&
      ("type" in data && Truthy(data["type"]) ==> t.payload["type"] == Str(Lower(data["type"].s))) &&
      ("type" in data && !Truthy(data["type"]) ==> t.payload["type"] == data["type"]) &&
      (forall k ::
         (k in data && k != "attach_debug" && k != "version" && k != "type" &&
          (env.isEnterprise ==> k != "serial" && k != "company")) ==> t.payload[k] == data[k])
  {
  }

  /** When support is available the ticket goes to the enterprise proxy,
      needs the six enterprise attributes, and names the licensed customer. */
  lemma AvailableTicketIsEnterprise(data: map<string, Value>, env: TicketEnv)
    requires TicketArgs(data) && IsAvailable(env.vendor, env.isEnterprise, env.license)
    ensures var r := TicketFor(data, env);
      r.Success? <==> forall i :: 0 <= i < 6 ==> RequiredAttrs(true)[i] in data
    ensures var r := TicketFor(data, env);
      r.Success? ==>
        r.value.swName == "truenas" && r.value.payload["company"] == Str(env.license.value.customerName)
  {
    TicketOutcome(data, env);
    if TicketFor(data, env).Success? {
      TicketPayload(data, env);
    }
  }

  /** `new_ticket` up to the submission: the vendor check, the enterprise
      additions, the loop over the required attributes, the version, the
      popped `attach_debug` and the lower-cased type. */
  method NewTicket(data: map<string, Value>, env: TicketEnv) returns (r: Result<Ticket, string>)
    requires TicketArgs(data)
    ensures r == TicketFor(data, env)
  {
    if HasVendor(env.vendor) {
      return Failure("Support is not available for this product (" + env.vendor.value + ")");
    }
    var swName := SoftwareName(env.isEnterprise);
    var requiredAttrs := RequiredAttrs(env.isEnterprise);
    var payload := data;
    if swName != "freenas" {
      payload := payload["serial" := env.serialNumber];
      if env.license.Some? {
        payload := payload["company" := Str(env.license.value.customerName)];
      } else {
        payload := payload["company" := Str("Unknown")];
      }
    }
    var i := 0;
    while i < |requiredAttrs|
      invariant 0 <= i <= |requiredAttrs|
      invariant forall k :: 0 <= k < i ==> requiredAttrs[k] in payload
    {
      if requiredAttrs[i] !in payload {
        assert FirstMissing(requiredAttrs, payload) == Some(i);
        return Failure(requiredAttrs[i] + " is required");
      }
      i := i + 1;
    }
    payload := payload["version" := Str(env.product + "-" + env.versionShort)];
    var debug := payload["attach_debug"];
    payload := payload - {"attach_debug"};
    if "type" in payload && Truthy(payload["type"]) {
      payload := payload["type" := Str(Lower(payload["type"].s))];
    }
    r := Success(Ticket(swName, payload, debug));
  }
}
