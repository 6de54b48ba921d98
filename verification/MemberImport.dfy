/**
 * The body of the member import: the test-account filter, the account-number
 * join map, the member/collaborator decision, the name joins, the pruned
 * priorities map, one output record per surviving roster row and the summary
 * counts of the output document.
 */
module MemberImport {
  import opened Wrappers
  import opened PyStr
  import opened Normalizers

  /** The test accounts left out of the import. */
  const ExcludedEmails: set<string> := {"prueba@secid.mx", "prueba_2@secid.mx"}

  /** The join and exclusion key of an address: stripped, then lower-cased. */
  function NormEmail(email: string): string {
    Lower(Strip(email))
  }

  /**
   * One row of the member roster, one field per column the import reads. The
   * priority ratings are keyed by the initiative label in their column header;
   * a blank rating, or a missing column, has no entry.
   */
  datatype MemberRow = MemberRow(
    email: string,
    firstName: Cell,
    paternalSurname: Cell,
    maternalSurname: Cell,
    memberFlag: Cell,
    registrationType: Cell,
    academicLevel: Cell,
    campus: Cell,
    interests: Cell,
    ratings: map<string, string>,
    comments: Cell)

  /** One row of the account roster; the number cell is blank or holds an integer. */
  datatype AccountRow = AccountRow(email: string, accountNumber: Option<int>)

  // ---------------------------------------------------------------------------
  // The exclusion filter

  /** `a` is `b` with some elements left out, the rest in their original order. */
  predicate IsSubsequence<T(==)>(a: seq<T>, b: seq<T>)
    decreases |b|
  {
    |a| <= |b| && (a == [] || (a[0] == b[0] && IsSubsequence(a[1..], b[1..])) || IsSubsequence(a, b[1..]))
  }

  /**
   * The roster without the test accounts: exactly the rows whose normalized
   * address is not excluded survive, in their original order.
   */
  function ExcludeTestAccounts(rows: seq<MemberRow>): (kept: seq<MemberRow>)
    ensures IsSubsequence(kept, rows)
    ensures forall row :: row in kept ==> row in rows && NormEmail(row.email) !in ExcludedEmails
    ensures forall row :: row in rows && NormEmail(row.email) !in ExcludedEmails ==> row in kept
    decreases |rows|
  {
    if rows == [] then []
    else
      var rest := ExcludeTestAccounts(rows[1..]);
      assert forall row :: row in rows ==> row == rows[0] || row in rows[1..];
      if NormEmail(rows[0].email) in ExcludedEmails then rest
      else
        assert ([rows[0]] + rest)[1..] == rest;
        [rows[0]] + rest
  }

  /**
   * The filter keeps every surviving row as often as the roster holds it, so
   * repeated rows are not merged, and drops every copy of an excluded row.
   */
  lemma ExcludeTestAccountsCounts(rows: seq<MemberRow>)
    ensures forall row :: multiset(ExcludeTestAccounts(rows))[row]
                          == if NormEmail(row.email) in ExcludedEmails then 0 else multiset(rows)[row]
  {
    forall row
      ensures multiset(ExcludeTestAccounts(rows))[row]
              == if NormEmail(row.email) in ExcludedEmails then 0 else multiset(rows)[row]
    {
      ExcludeCountOf(rows, row);
    }
  }

  /** `ExcludeTestAccountsCounts` for one row. */
  lemma {:induction false} ExcludeCountOf(rows: seq<MemberRow>, row: MemberRow)
    ensures multiset(ExcludeTestAccounts(rows))[row]
            == if NormEmail(row.email) in ExcludedEmails then 0 else multiset(rows)[row]
    decreases |rows|
  {
    if rows != [] {
      var rest := ExcludeTestAccounts(rows[1..]);
      ExcludeCountOf(rows[1..], row);
      CountCons(rows, row);
      CountCons([rows[0]] + rest, row);
      assert ([rows[0]] + rest)[1..] == rest;
    }
  }

  /** A sequence holds `x` once more than its tail when its head is `x`, as often otherwise. */
  lemma CountCons<T>(xs: seq<T>, x: T)
    requires xs != []
    ensures multiset(xs)[x] == (if xs[0] == x then 1 else 0) + multiset(xs[1..])[x]
  {
    assert xs == [xs[0]] + xs[1..];
  }

  // ---------------------------------------------------------------------------
  // The account join map

  /**
   * The map after reading `rows` in order: a row with a number sets the entry
   * for its normalized address to the number's decimal text, overwriting any
   * earlier entry; a row without a number changes nothing.
   */
  function AccountMapOf(rows: seq<AccountRow>): map<string, string>
    decreases |rows|
  {
    if rows == [] then map[]
    else
      var before := AccountMapOf(rows[..|rows| - 1]);
      var last := rows[|rows| - 1];
      match last.accountNumber
      case None => before
      case Some(n) => before[NormEmail(last.email) := IntToDecimal(n)]
  }

  /** Row `j` carries an account number and has the normalized address `key`. */
  predicate NumberedAt(rows: seq<AccountRow>, j: int, key: string) {
    0 <= j < |rows| && rows[j].accountNumber.Some? && NormEmail(rows[j].email) == key
  }

  /** Every key of the map comes from a row that carries a number. */
  lemma {:induction false} AccountMapKeySource(rows: seq<AccountRow>, key: string)
    requires key in AccountMapOf(rows)
    ensures exists j :: NumberedAt(rows, j, key)
    decreases |rows|
  {
    var prefix := rows[..|rows| - 1];
    if key in AccountMapOf(prefix) {
      AccountMapKeySource(prefix, key);
      var j :| NumberedAt(prefix, j, key);
      assert NumberedAt(rows, j, key);
    } else {
      assert NumberedAt(rows, |rows| - 1, key);
    }
  }

  /** Every row that carries a number leaves a key for its normalized address. */
  lemma {:induction false} AccountMapKeyPresent(rows: seq<AccountRow>, j: int, key: string)
    requires NumberedAt(rows, j, key)
    ensures key in AccountMapOf(rows)
    decreases |rows|
  {
    var prefix := rows[..|rows| - 1];
    if j < |rows| - 1 {
      assert NumberedAt(prefix, j, key);
      AccountMapKeyPresent(prefix, j, key);
      AccountMapKeepsKey(rows, key);
    }
  }

  /** A key, once in the map, stays in it when one more row is read. */
  lemma AccountMapKeepsKey(rows: seq<AccountRow>, key: string)
    requires rows != [] && key in AccountMapOf(rows[..|rows| - 1])
    ensures key in AccountMapOf(rows)
  {
  }

  /** The keys are exactly the normalized addresses of the rows that carry a number. */
  lemma AccountMapKeys(rows: seq<AccountRow>, key: string)
    ensures key in AccountMapOf(rows) <==> exists j :: NumberedAt(rows, j, key)
  {
    if key in AccountMapOf(rows) {
      AccountMapKeySource(rows, key);
    }
    if exists j :: NumberedAt(rows, j, key) {
      var j :| NumberedAt(rows, j, key);
      AccountMapKeyPresent(rows, j, key);
    }
  }

  /**
   * Last write wins: the entry for an address holds the number of the last
   * row with that address that carries a number.
   */
  lemma {:induction false} AccountMapLastWins(rows: seq<AccountRow>, j: int)
    requires 0 <= j < |rows| && rows[j].accountNumber.Some?
    requires forall k :: j < k < |rows| ==> !NumberedAt(rows, k, NormEmail(rows[j].email))
    ensures NormEmail(rows[j].email) in AccountMapOf(rows)
    ensures AccountMapOf(rows)[NormEmail(rows[j].email)] == IntToDecimal(rows[j].accountNumber.value)
    decreases |rows|
  {
    if j < |rows| - 1 {
      var prefix := rows[..|rows| - 1];
      assert prefix[j] == rows[j];
      forall k | j < k < |prefix| ensures !NumberedAt(prefix, k, NormEmail(prefix[j].email)) {
        assert prefix[k] == rows[k];
        assert !NumberedAt(rows, k, NormEmail(rows[j].email));
      }
      AccountMapLastWins(prefix, j);
      assert !NumberedAt(rows, |rows| - 1, NormEmail(rows[j].email));
    }
  }

  /** A row without a number leaves the map as it was. */
  lemma BlankAccountAddsNothing(rows: seq<AccountRow>, blank: AccountRow)
    requires blank.accountNumber.None?
    ensures AccountMapOf(rows + [blank]) == AccountMapOf(rows)
  {
    assert (rows + [blank])[..|rows|] == rows;
  }

  /**
   * The loop that builds the account map, one row at a time; its keys are
   * exactly the normalized addresses of the rows that carry a number.
   */
  method BuildAccountMap(rows: seq<AccountRow>) returns (accountMap: map<string, string>)
    ensures accountMap == AccountMapOf(rows)
    ensures forall key :: key in accountMap <==> exists j :: NumberedAt(rows, j, key)
  {
    accountMap := map[];
    var i := 0;
    while i < |rows|
      invariant 0 <= i <= |rows|
      invariant accountMap == AccountMapOf(rows[..i])
    {
      var row := rows[i];
      if row.accountNumber.Some? {
        accountMap := accountMap[NormEmail(row.email) := IntToDecimal(row.accountNumber.value)];
      }
      assert rows[..i + 1][..i] == rows[..i];
      i := i + 1;
    }
    assert rows[..|rows|] == rows;
    forall key | true ensures key in accountMap <==> exists j :: NumberedAt(rows, j, key) {
      AccountMapKeys(rows, key);
    }
  }

  /** `accountMap.get(key)`. */
  function Lookup(accountMap: map<string, string>, key: string): Option<string> {
    if key in accountMap then Some(accountMap[key]) else None
  }

  // ---------------------------------------------------------------------------
  // Role and status

  /** The four fields that one member/collaborator decision fixes together. */
  datatype Classification = Classification(
    role: string,
    lifecycleStatus: string,
    registrationType: string,
    verificationStatus: string)

  const MemberClass := Classification("member", "active", "member", "approved")
  const CollaboratorClass := Classification("collaborator", "collaborator", "collaborator", "none")

  /** Whether a whitespace-free word occurs in the lower-cased registration type, blank or not. */
  lemma RegistrationWord(raw: string, w: string)
    requires IsWord(w)
    ensures Contains(Lower(SafeStr(Some(raw)).GetOr("")), w) <==> Contains(Lower(raw), w)
  {
    LowerStrip(raw);
    ContainsStrip(Lower(raw), w);
    if SafeStr(Some(raw)).None? {
      LowerAllSpace(raw);
      assert Strip(Lower(raw)) == [];
      assert Lower("") == "";
    }
  }

  /** The two words that make a registration type a membership. */
  lemma MembershipWords()
    ensures IsWord("miembro") && IsWord("egresado")
  {
  }

  /**
   * Testing the trimmed registration type, or the empty text when it is blank,
   * for either membership word is testing the cell itself.
   */
  lemma RegistrationWords(registrationType: Cell)
    ensures Contains(Lower(SafeStr(registrationType).GetOr("")), "miembro") <==>
      registrationType.Some? && Contains(Lower(registrationType.value), "miembro")
    ensures Contains(Lower(SafeStr(registrationType).GetOr("")), "egresado") <==>
      registrationType.Some? && Contains(Lower(registrationType.value), "egresado")
  {
    MembershipWords();
    if registrationType.Some? {
      RegistrationWord(registrationType.value, "miembro");
      RegistrationWord(registrationType.value, "egresado");
    } else {
      assert Lower("") == "";
    }
  }

  /**
   * A row is a member when the membership cell is filled in, or when its
   * registration type mentions "miembro" or "egresado" in any letter case;
   * otherwise it is a collaborator. Either way the four fields agree.
   */
  function Classify(memberFlag: Cell, registrationType: Cell): (c: Classification)
    ensures c == MemberClass || c == CollaboratorClass
    ensures c.role == "member" <==>
      || memberFlag.Some?
      || (registrationType.Some? && Contains(Lower(registrationType.value), "miembro"))
      || (registrationType.Some? && Contains(Lower(registrationType.value), "egresado"))
  {
    var tipo := SafeStr(registrationType).GetOr("");
    RegistrationWords(registrationType);
    if memberFlag.Some? || Contains(Lower(tipo), "miembro") || Contains(Lower(tipo), "egresado")
    then MemberClass
    else CollaboratorClass
  }

  // ---------------------------------------------------------------------------
  // Names

  /** The parts `filter(None, ...)` keeps: those present and not empty, in order. */
  function Present(parts: seq<Option<string>>): (r: seq<string>)
    ensures forall i :: 0 <= i < |r| ==> r[i] != []
    decreases |parts|
  {
    if parts == [] then []
    else
      var rest := Present(parts[1..]);
      if parts[0].Some? && parts[0].value != [] then [parts[0].value] + rest else rest
  }

  /** A text is kept exactly when some part holds it and it is not empty. */
  lemma {:induction false} PresentKeeps(parts: seq<Option<string>>)
    ensures forall s :: s in Present(parts) <==> s != [] && Some(s) in parts
    decreases |parts|
  {
    if parts != [] {
      PresentKeeps(parts[1..]);
      assert forall p :: p in parts <==> p == parts[0] || p in parts[1..];
    }
  }

  /** `" ".join(filter(None, parts))`. */
  function JoinPresent(parts: seq<Option<string>>): string {
    Join(Present(parts), ' ')
  }

  /**
   * Joining two trimmed cells: both with a space between them, one alone, or
   * the empty text exactly when both are blank.
   */
  lemma NameJoinCases(a: Cell, b: Cell)
    ensures var x, y := SafeStr(a), SafeStr(b);
      JoinPresent([x, y]) ==
        if x.Some? && y.Some? then x.value + " " + y.value
        else if x.Some? then x.value
        else if y.Some? then y.value
        else ""
    ensures JoinPresent([SafeStr(a), SafeStr(b)]) == [] <==> SafeStr(a).None? && SafeStr(b).None?
  {
    var x, y := SafeStr(a), SafeStr(b);
    assert [x, y][1..] == [y];
    assert [y][1..] == [];
    if y.Some? {
      assert Present([y]) == [y.value];
    } else {
      assert Present([y]) == [];
    }
    if x.Some? && y.Some? {
      assert Present([x, y]) == [x.value, y.value];
      assert [x.value, y.value][1..] == [y.value];
      assert Join([y.value], ' ') == y.value;
      assert JoinPresent([x, y]) == x.value + [' '] + y.value;
    }
  }

  /** `email.split("@")[0]`: the text before the first `@`, or all of it when there is none. */
  function LocalPart(email: string): (r: string)
    ensures '@' !in r
    ensures |r| <= |email| && r == email[..|r|]
    ensures |r| < |email| ==> email[|r|] == '@'
  {
    SplitFirst(email, '@');
    Split(email, '@')[0]
  }

  /** First name and paternal surname, or the address's local part when both are blank. */
  function DisplayName(email: string, firstName: Option<string>, paternalSurname: Option<string>): string {
    var joined := JoinPresent([firstName, paternalSurname]);
    if joined != [] then joined else LocalPart(email)
  }

  /**
   * The display name falls back to the address's local part exactly when the
   * first name and the paternal surname are both blank; otherwise it is their
   * space-join, which is not empty.
   */
  lemma DisplayNameCases(email: string, firstName: Cell, paternalSurname: Cell)
    ensures var name := DisplayName(email, SafeStr(firstName), SafeStr(paternalSurname));
      && (SafeStr(firstName).None? && SafeStr(paternalSurname).None? ==> name == LocalPart(email))
      && (SafeStr(firstName).Some? || SafeStr(paternalSurname).Some? ==>
            name == JoinPresent([SafeStr(firstName), SafeStr(paternalSurname)]) && name != [])
  {
    NameJoinCases(firstName, paternalSurname);
  }

  /** A row with no name gets the part of its address before the `@`, as `jdoe` for `jdoe@example.com`. */
  lemma DisplayNameOfAddress(local: string, domain: string)
    requires '@' !in local
    ensures DisplayName(local + "@" + domain, None, None) == local
  {
    var blank: Option<string> := None;
    assert JoinPresent([blank, blank]) == "" by {
      assert [blank, blank][1..] == [blank];
      assert [blank][1..] == [];
      assert Present([blank]) == [];
      assert Present([blank, blank]) == [];
    }
    var email := local + "@" + domain;
    var r := LocalPart(email);
    assert email[..|local|] == local && email[|local|] == '@';
  }

  // ---------------------------------------------------------------------------
  // Priorities

  /**
   * The seven rated initiatives: the key each has in the output, and the
   * initiative's label in the header of its rating column.
   */
  const InitiativeColumns: map<string, string> := map[
    "bolsaTrabajo" := "Bolsa Trabajo",
    "hackatones" := "Hackatones",
    "cursosEspecializados" := "Cursos especializados",
    "seminarios" := "Seminarios",
    "asesorias" := "Asesor\U{ED}as",
    "mentoria" := "Mentor\U{ED}a",
    "newsletter" := "Newsletter"
  ]

  /** The output keys of the seven initiatives. */
  const InitiativeKeys: set<string> := InitiativeColumns.Keys

  /** `row.get(column)` for the rating column of the initiative labelled `initiative`. */
  function Rating(ratings: map<string, string>, initiative: string): Cell {
    if initiative in ratings then Some(ratings[initiative]) else None
  }

  /**
   * The priorities as first built: every initiative key, each with its rating
   * trimmed, or absent when the rating is blank.
   */
  function RawPriorities(ratings: map<string, string>): (m: map<string, Option<string>>)
    ensures m.Keys == InitiativeKeys
    ensures forall k :: k in m && m[k].Some? ==> m[k].value != [] && IsStripped(m[k].value)
  {
    map k | k in InitiativeColumns :: SafeStr(Rating(ratings, InitiativeColumns[k]))
  }

  /** The map without its absent values. */
  function Prune(m: map<string, Option<string>>): (r: map<string, Option<string>>)
    ensures r.Keys <= m.Keys
    ensures forall k :: k in r ==> r[k].Some? && r[k] == m[k]
    ensures forall k :: k in m && m[k].Some? ==> k in r
  {
    map k | k in m && m[k].Some? :: m[k]
  }

  /** Pruning twice is pruning once. */
  lemma PruneIdempotent(m: map<string, Option<string>>)
    ensures Prune(Prune(m)) == Prune(m)
  {
  }

  /**
   * The pruned priorities: keys drawn only from the seven initiatives, no key
   * mapped to absent, every rating trimmed and non-empty, and an initiative
   * kept exactly when its rating cell holds more than whitespace.
   */
  lemma PrunedPriorities(ratings: map<string, string>)
    ensures var p := Prune(RawPriorities(ratings));
      && p.Keys <= InitiativeKeys
      && (forall k :: k in p ==> p[k].Some? && p[k].value != [] && IsStripped(p[k].value))
      && (forall k :: k in InitiativeColumns ==>
            (k in p <==> InitiativeColumns[k] in ratings && !AllSpace(ratings[InitiativeColumns[k]])))
      && (forall k :: k in p ==> InitiativeColumns[k] in ratings && p[k] == SafeStr(Some(ratings[InitiativeColumns[k]])))
  {
  }

  /** A row rating only the seminars gets a priorities map with the single key `seminarios`. */
  lemma SeminariosOnlyExample(rating: string)
    requires !AllSpace(rating)
    ensures forall k :: k in Prune(RawPriorities(map["Seminarios" := rating])) <==> k == "seminarios"
  {
    var ratings := map["Seminarios" := rating];
    var p := Prune(RawPriorities(ratings));
    PrunedPriorities(ratings);
    SeminariosLabel();
    assert "seminarios" in p;
  }

  /** Of the seven initiatives, only the seminars carry the label "Seminarios". */
  lemma SeminariosLabel()
    ensures "seminarios" in InitiativeColumns && InitiativeColumns["seminarios"] == "Seminarios"
    ensures forall k :: k in InitiativeColumns && k != "seminarios" ==> InitiativeColumns[k] != "Seminarios"
  {
  }

  // ---------------------------------------------------------------------------
  // Records

  /** One output record; the other pass-through survey columns are not modelled. */
  datatype MemberRecord = MemberRecord(
    email: string,
    displayName: string,
    firstName: Option<string>,
    lastName: string,
    role: string,
    registrationType: string,
    verificationStatus: string,
    lifecycleStatus: string,
    numeroCuenta: Option<string>,
    academicLevel: Option<string>,
    campus: Option<string>,
    skills: seq<string>,
    priorities: map<string, Option<string>>,
    comments: Option<string>)

  /** The four classification fields are one of the two consistent tuples. */
  predicate ConsistentClassification(r: MemberRecord) {
    var c := Classification(r.role, r.lifecycleStatus, r.registrationType, r.verificationStatus);
    c == MemberClass || c == CollaboratorClass
  }

  /** The record as first assembled from a roster row, before its priorities are pruned. */
  function BuildRecord(row: MemberRow, accountMap: map<string, string>): MemberRecord {
    var email := Strip(row.email);
    var firstName := SafeStr(row.firstName);
    var paternal := SafeStr(row.paternalSurname);
    var maternal := SafeStr(row.maternalSurname);
    var c := Classify(row.memberFlag, row.registrationType);
    MemberRecord(
      email,
      DisplayName(email, firstName, paternal),
      firstName,
      JoinPresent([paternal, maternal]),
      c.role,
      c.registrationType,
      c.verificationStatus,
      c.lifecycleStatus,
      Lookup(accountMap, Lower(email)),
      NormalizeAcademicLevel(row.academicLevel),
      SafeStr(row.campus),
      ParseSkills(row.interests),
      RawPriorities(row.ratings),
      SafeStr(row.comments))
  }

  /**
   * The record written for a roster row: its classification is consistent, its
   * address lower-cases to the row's normalized address, its account number is
   * the map's entry for that address, and its priorities hold only present
   * ratings of the seven initiatives.
   */
  function ImportRecord(row: MemberRow, accountMap: map<string, string>): (r: MemberRecord)
    ensures ConsistentClassification(r)
    ensures Lower(r.email) == NormEmail(row.email)
    ensures r.numeroCuenta.Some? <==> NormEmail(row.email) in accountMap
    ensures r.numeroCuenta.Some? ==> r.numeroCuenta.value == accountMap[NormEmail(row.email)]
    ensures r.priorities.Keys <= InitiativeKeys
    ensures forall k :: k in r.priorities ==> r.priorities[k].Some?
  {
    var record := BuildRecord(row, accountMap);
    record.(priorities := Prune(record.priorities))
  }

  /**
   * The body of the records loop for one row: assemble the record, then replace
   * its priorities by their pruned copy. The result is the row's import record.
   */
  method AssembleRecord(row: MemberRow, accountMap: map<string, string>) returns (record: MemberRecord)
    ensures record == ImportRecord(row, accountMap)
  {
    record := BuildRecord(row, accountMap);
    record := record.(priorities := Prune(record.priorities));
  }

  /** The import records of `rows`, one per row, in order. */
  function ImportRecords(rows: seq<MemberRow>, accountMap: map<string, string>): (records: seq<MemberRecord>)
    ensures |records| == |rows|
    decreases |rows|
  {
    if rows == [] then []
    else ImportRecords(rows[..|rows| - 1], accountMap) + [ImportRecord(rows[|rows| - 1], accountMap)]
  }

  /** The record at each position is the import record of the row at that position. */
  lemma {:induction false} ImportRecordsAt(rows: seq<MemberRow>, accountMap: map<string, string>, k: int)
    requires 0 <= k < |rows|
    ensures ImportRecords(rows, accountMap)[k] == ImportRecord(rows[k], accountMap)
    decreases |rows|
  {
    if k < |rows| - 1 {
      ImportRecordsAt(rows[..|rows| - 1], accountMap, k);
    }
  }

  // ---------------------------------------------------------------------------
  // Summary counts and the output document

  /** How many records have the given role. */
  function CountRole(records: seq<MemberRecord>, role: string): (n: nat)
    ensures n <= |records|
    decreases |records|
  {
    if records == [] then 0
    else (if records[0].role == role then 1 else 0) + CountRole(records[1..], role)
  }

  /** The roles of the records, in order. */
  function Roles(records: seq<MemberRecord>): (roles: seq<string>)
    ensures |roles| == |records|
    ensures forall i :: 0 <= i < |records| ==> roles[i] == records[i].role
  {
    seq(|records|, i requires 0 <= i < |records| => records[i].role)
  }

  /** A role count is the number of times the role occurs among the records' roles. */
  lemma {:induction false} CountRoleOccurrences(records: seq<MemberRecord>, role: string)
    ensures CountRole(records, role) == multiset(Roles(records))[role]
    decreases |records|
  {
    if records != [] {
      CountRoleOccurrences(records[1..], role);
      assert Roles(records)[1..] == Roles(records[1..]);
      CountCons(Roles(records), role);
    }
  }

  /** When every role is member or collaborator, the two counts add up to the number of records. */
  lemma {:induction false} RoleCountsPartition(records: seq<MemberRecord>)
    requires forall i :: 0 <= i < |records| ==> records[i].role == "member" || records[i].role == "collaborator"
    ensures CountRole(records, "member") + CountRole(records, "collaborator") == |records|
    decreases |records|
  {
    if records != [] {
      RoleCountsPartition(records[1..]);
    }
  }

  /** Extending the rows by one extends their records by that row's record. */
  lemma ImportRecordsSnoc(rows: seq<MemberRow>, accountMap: map<string, string>, i: int)
    requires 0 <= i < |rows|
    ensures ImportRecords(rows[..i + 1], accountMap) == ImportRecords(rows[..i], accountMap) + [ImportRecord(rows[i], accountMap)]
  {
    assert rows[..i + 1][..i] == rows[..i];
  }

  /** The records loop: one import record per row, appended in order. */
  method BuildRecords(rows: seq<MemberRow>, accountMap: map<string, string>) returns (records: seq<MemberRecord>)
    ensures records == ImportRecords(rows, accountMap)
  {
    records := [];
    var i := 0;
    while i < |rows|
      invariant 0 <= i <= |rows|
      invariant records == ImportRecords(rows[..i], accountMap)
    {
      var record := AssembleRecord(rows[i], accountMap);
      ImportRecordsSnoc(rows, accountMap, i);
      records := records + [record];
      i := i + 1;
    }
    assert rows[..i] == rows;
  }

  /**
   * The records of rows that survived the exclusion filter: none has an address
   * that lower-cases to an excluded one, every classification is consistent,
   * and the member and collaborator counts add up to the number of records.
   */
  lemma ImportRecordsFacts(rows: seq<MemberRow>, accountMap: map<string, string>)
    requires forall row :: row in rows ==> NormEmail(row.email) !in ExcludedEmails
    ensures var records := ImportRecords(rows, accountMap);
      && (forall i :: 0 <= i < |records| ==> Lower(records[i].email) !in ExcludedEmails)
      && (forall i :: 0 <= i < |records| ==> ConsistentClassification(records[i]))
      && CountRole(records, "member") + CountRole(records, "collaborator") == |records|
  {
    var records := ImportRecords(rows, accountMap);
    forall i | 0 <= i < |records|
      ensures Lower(records[i].email) !in ExcludedEmails && ConsistentClassification(records[i])
    {
      ImportRecordsAt(rows, accountMap, i);
      assert rows[i] in rows;
    }
    RoleCountsPartition(records);
  }

  /** The output document, without its generation timestamp. */
  datatype ImportDocument = ImportDocument(
    totalMembers: nat,
    memberCount: nat,
    collaboratorCount: nat,
    excludedEmails: set<string>,
    members: seq<MemberRecord>)

  /**
   * The whole transform: drop the test accounts, build the account map, write
   * one record per surviving row in roster order, and count the roles. No
   * record's address lower-cases to an excluded one, and the total is the sum
   * of the two role counts.
   */
  method PrepareImport(memberRows: seq<MemberRow>, accountRows: seq<AccountRow>) returns (doc: ImportDocument)
    ensures doc.members == ImportRecords(ExcludeTestAccounts(memberRows), AccountMapOf(accountRows))
    ensures forall i :: 0 <= i < |doc.members| ==> Lower(doc.members[i].email) !in ExcludedEmails
    ensures forall i :: 0 <= i < |doc.members| ==> ConsistentClassification(doc.members[i])
    ensures doc.totalMembers == doc.memberCount + doc.collaboratorCount == |doc.members|
    ensures doc.memberCount == CountRole(doc.members, "member")
    ensures doc.collaboratorCount == CountRole(doc.members, "collaborator")
    ensures doc.excludedEmails == ExcludedEmails
  {
    var kept := ExcludeTestAccounts(memberRows);
    var accountMap := BuildAccountMap(accountRows);
    var records := BuildRecords(kept, accountMap);
    ImportRecordsFacts(kept, accountMap);
    doc := ImportDocument(
      |records|,
      CountRole(records, "member"),
      CountRole(records, "collaborator"),
      ExcludedEmails,
      records);
  }
}
