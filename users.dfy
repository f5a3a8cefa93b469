/** Registering and updating users: the hourly rate derived from the monthly
    salary, the fixed flags of a new account and the patch rules of an update. */
module Users {
  import opened Common

  /** A month counts 30 days of 8 hours. */
  const DAYS_PER_MONTH: real := 30.0
  const HOURS_PER_DAY: real := 8.0

  /** `monthlySalary / 30 / 8`. */
  function HourlyRate(salary: real): (rate: real)
    ensures rate * 240.0 == salary
    ensures salary > 0.0 ==> rate > 0.0
    ensures salary == 0.0 <==> rate == 0.0
  {
    salary / DAYS_PER_MONTH / HOURS_PER_DAY
  }

  /** A higher salary never gives a lower rate. */
  lemma HourlyRateMonotone(s1: real, s2: real)
    requires s1 <= s2
    ensures HourlyRate(s1) <= HourlyRate(s2)
  {
    assert HourlyRate(s2) - HourlyRate(s1) == (s2 - s1) / 240.0;
  }

  /** A stored hire date: the `Date` that `new Date(text)` made of the
      submitted text. */
  datatype StoredDate = DateFromText(text: string)

  /** The fields `registerUser` reads. */
  datatype RegisterInput = RegisterInput(firstName: string, lastName: string, email: string, role: string,
                                         teamId: string, hireDate: string, monthlySalary: real)

  /** A user row. */
  datatype UserRecord = UserRecord(id: string, firstName: string, lastName: string, email: string, role: string,
                                   teamId: string, hireDate: StoredDate, monthlySalary: real, hourlyRate: real,
                                   passwordHash: string, mustChangePassword: bool, isActive: bool)

  /** The rate column agrees with the salary column. */
  predicate RateMatchesSalary(u: UserRecord)
  {
    u.hourlyRate * 240.0 == u.monthlySalary
  }

  /** The row `registerUser` creates. The hash of the generated password, the
      new id and the `isActive` default of the table are parameters. */
  function RegisterUser(input: RegisterInput, passwordHash: string, id: string, activeDefault: bool): (u: UserRecord)
    ensures u.mustChangePassword
    ensures RateMatchesSalary(u)
    ensures input.monthlySalary > 0.0 ==> u.hourlyRate > 0.0
    ensures u.hireDate == DateFromText(input.hireDate)
    ensures u.firstName == input.firstName && u.lastName == input.lastName && u.email == input.email
    ensures u.role == input.role && u.teamId == input.teamId && u.monthlySalary == input.monthlySalary
    ensures u.passwordHash == passwordHash && u.id == id && u.isActive == activeDefault
  {
    UserRecord(id, input.firstName, input.lastName, input.email, input.role, input.teamId,
               DateFromText(input.hireDate), input.monthlySalary, HourlyRate(input.monthlySalary),
               passwordHash, true, activeDefault)
  }

  /** `UpdateUserInput`: every field optional. */
  datatype UserUpdates = UserUpdates(role: Option<string>, monthlySalary: Option<real>, teamId: Option<string>,
                                     hireDate: Option<string>, isActive: Option<bool>)

  /** The `data` object handed to `user.update`: a field that is `None` is left
      as it is in the row. */
  datatype UserPatch = UserPatch(role: Option<string>, monthlySalary: Option<real>, teamId: Option<string>,
                                 hireDate: Option<StoredDate>, isActive: Option<bool>, hourlyRate: Option<real>)

  function Pick<T>(o: Option<T>, current: T): T
  {
    if o.Some? then o.value else current
  }

  /** Prisma's `update`: the supplied columns take their new values. */
  function ApplyPatch(u: UserRecord, p: UserPatch): UserRecord
  {
    u.(role := Pick(p.role, u.role), monthlySalary := Pick(p.monthlySalary, u.monthlySalary),
       teamId := Pick(p.teamId, u.teamId), hireDate := Pick(p.hireDate, u.hireDate),
       isActive := Pick(p.isActive, u.isActive), hourlyRate := Pick(p.hourlyRate, u.hourlyRate))
  }

  /** Why `user.update` refused the data: a hire date that is not a valid
      date, which Prisma rejects for the `DateTime` column. */
  datatype UpdateError = HireDateRejected

  /** `updateUser` on the row found for the id: copy the updates, recompute the
      rate when a salary is supplied, convert a non-empty hire date. An empty
      hire date is falsy, so the text `""` itself goes to Prisma, which rejects
      it; a text that `new Date` cannot read gives an invalid date, which is
      rejected too. `validDate(t)` says whether `new Date(t)` is a valid date. */
  method UpdateUser(user: UserRecord, updates: UserUpdates, validDate: string -> bool)
    returns (r: Result<UserRecord, UpdateError>)
    ensures r.Err? <==> updates.hireDate.Some? && (updates.hireDate.value == "" || !validDate(updates.hireDate.value))
    ensures r.Err? ==> r.error == HireDateRejected
    ensures r.Ok? ==> var updated := r.value;
      && updated.id == user.id && updated.firstName == user.firstName && updated.lastName == user.lastName
      && updated.email == user.email && updated.passwordHash == user.passwordHash
      && updated.mustChangePassword == user.mustChangePassword
      && (updates.role.Some? ==> updated.role == updates.role.value)
      && (updates.role.None? ==> updated.role == user.role)
      && (updates.teamId.Some? ==> updated.teamId == updates.teamId.value)
      && (updates.teamId.None? ==> updated.teamId == user.teamId)
      && (updates.isActive.Some? ==> updated.isActive == updates.isActive.value)
      && (updates.isActive.None? ==> updated.isActive == user.isActive)
      && (updates.monthlySalary.Some? ==>
            updated.monthlySalary == updates.monthlySalary.value && updated.hourlyRate * 240.0 == updated.monthlySalary)
      && (updates.monthlySalary.None? ==>
            updated.monthlySalary == user.monthlySalary && updated.hourlyRate == user.hourlyRate)
      && (updates.hireDate.None? ==> updated.hireDate == user.hireDate)
      && (updates.hireDate.Some? ==> updated.hireDate == DateFromText(updates.hireDate.value))
      && (RateMatchesSalary(user) ==> RateMatchesSalary(updated))
  {
    var data := UserPatch(updates.role, updates.monthlySalary, updates.teamId, None, updates.isActive, None);
    if updates.monthlySalary.Some? {
      data := data.(hourlyRate := Some(HourlyRate(updates.monthlySalary.value)));
    }
    if updates.hireDate.Some? {
      if updates.hireDate.value == "" || !validDate(updates.hireDate.value) {
        r := Err(HireDateRejected);
        return;
      }
      data := data.(hireDate := Some(DateFromText(updates.hireDate.value)));
    }
    r := Ok(ApplyPatch(user, data));
  }
}
