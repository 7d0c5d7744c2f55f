/** The "AspNetUserClaims" accessor (`UserClaimsTable`): (type, value) claims
    attached to a user Id. */
module Claims {
  import opened Common
  import opened Entities
  import opened Relational
  import opened PostgreSql

  /** `new Claim(type, value)` throws on a null part, so only rows with both
      columns set make a claim. */
  predicate Complete(c: ClaimRow) {
    c.claimType.Some? && c.claimValue.Some?
  }

  function ClaimOf(c: ClaimRow): Claim
    requires Complete(c)
  {
    Claim(c.claimType.value, c.claimValue.value)
  }

  /** FindByUserId: one claim per row of the user, in row order, or the
      exception of the first row with a NULL type or value. */
  function ClaimsOf(claims: seq<ClaimRow>, userId: NStr): Result<seq<Claim>> {
    var mine := ClaimsOfUser(claims, Cell(userId));
    if forall i :: 0 <= i < |mine| ==> Complete(mine[i])
    then Ok(seq(|mine|, i requires 0 <= i < |mine| => ClaimOf(mine[i])))
    else Err(ArgumentNullError)
  }

  /** FindByUserId fails exactly when one of the user's rows has a NULL type
      or value; otherwise every row of the user gives one claim, stored under
      that user. */
  lemma ClaimsOfMeaning(claims: seq<ClaimRow>, userId: NStr)
    ensures ClaimsOf(claims, userId).Err? <==> exists c :: c in ClaimsOfUser(claims, Cell(userId)) && !Complete(c)
    ensures ClaimsOf(claims, userId).Err? ==> ClaimsOf(claims, userId).error == ArgumentNullError
    ensures ClaimsOf(claims, userId).Ok? ==> |ClaimsOf(claims, userId).value| == |ClaimsOfUser(claims, Cell(userId))|
    ensures ClaimsOf(claims, userId).Ok? ==>
      forall cl :: cl in ClaimsOf(claims, userId).value ==>
        ClaimRow(userId, Some(cl.claimType), Some(cl.claimValue)) in claims
  {
    var mine := ClaimsOfUser(claims, Cell(userId));
    var r := ClaimsOf(claims, userId);
    if r.Ok? {
      assert forall i :: 0 <= i < |mine| ==>
        mine[i] in claims && mine[i] == ClaimRow(userId, Some(r.value[i].claimType), Some(r.value[i].claimValue));
    }
  }

  /** Insert then FindByUserId: the new claim is listed last, after the claims
      the user had. */
  lemma {:induction false} InsertThenFind(claims: seq<ClaimRow>, userId: NStr, claim: Claim)
    requires userId.Some?
    ensures ClaimsOf(claims, userId).Ok? ==>
      ClaimsOf(claims + [ClaimRow(userId, Some(claim.claimType), Some(claim.claimValue))], userId)
        == Ok(ClaimsOf(claims, userId).value + [claim])
  {
    var row := ClaimRow(userId, Some(claim.claimType), Some(claim.claimValue));
    var keep := (c: ClaimRow) => Matches(c.userId, Cell(userId));
    FilterAppend(claims, [row], keep);
    assert Filter([row], keep) == [row];
    var mine := ClaimsOfUser(claims, Cell(userId));
    var after := ClaimsOfUser(claims + [row], Cell(userId));
    assert after == mine + [row];
    if forall i :: 0 <= i < |mine| ==> Complete(mine[i]) {
      assert forall i :: 0 <= i < |after| ==> Complete(after[i]) by {
        forall i | 0 <= i < |after| ensures Complete(after[i]) {
          if i < |mine| { assert after[i] == mine[i]; } else { assert after[i] == row; }
        }
      }
      var before := ClaimsOf(claims, userId).value;
      var now := ClaimsOf(claims + [row], userId).value;
      assert |now| == |before| + 1;
      forall i | 0 <= i < |now| ensures now[i] == (before + [claim])[i] {
        if i < |mine| { assert after[i] == mine[i]; } else { assert after[i] == row; }
      }
      assert now == before + [claim];
    }
  }

  /** After Delete(userId), FindByUserId(userId) yields no claim. */
  lemma DeleteAllLeavesNone(claims: seq<ClaimRow>, userId: NStr)
    ensures ClaimsOf(ClaimsNotOfUser(claims, Cell(userId)), userId) == Ok([])
  {
    var rest := ClaimsNotOfUser(claims, Cell(userId));
    FilterNone(rest, (c: ClaimRow) => Matches(c.userId, Cell(userId)));
    assert ClaimsOfUser(rest, Cell(userId)) == [];
    assert ClaimsOf(rest, userId).Ok? && |ClaimsOf(rest, userId).value| == 0;
  }

  /** Delete(userId) keeps exactly the rows of other users; the affected-row
      count is the number of the user's rows. */
  lemma DeleteAllKeepsOthers(claims: seq<ClaimRow>, userId: NStr, c: ClaimRow)
    ensures c in ClaimsNotOfUser(claims, Cell(userId)) <==> c in claims && !(userId.Some? && c.userId == userId)
    ensures |claims| - |ClaimsNotOfUser(claims, Cell(userId))| == |ClaimsOfUser(claims, Cell(userId))|
  {
    FilterPartition(claims, (x: ClaimRow) => Matches(x.userId, Cell(userId)), (x: ClaimRow) => !Matches(x.userId, Cell(userId)));
  }

  /** Query over the user's rows yields, row by row, the stored type and value. */
  lemma RenderedClaims(cs: seq<ClaimRow>)
    ensures Rendered(Map(cs, ClaimRecord)).Ok?
    ensures |Rendered(Map(cs, ClaimRecord)).value| == |cs|
    ensures forall i :: 0 <= i < |cs| ==>
      var row := Rendered(Map(cs, ClaimRecord)).value[i];
      "ClaimType" in row && "ClaimValue" in row
      && row["ClaimType"] == cs[i].claimType && row["ClaimValue"] == cs[i].claimValue
  {
    RenderedRecords(cs, ClaimRecord);
    var v := Rendered(Map(cs, ClaimRecord)).value;
    forall i | 0 <= i < |cs|
      ensures "ClaimType" in v[i] && "ClaimValue" in v[i]
      ensures v[i]["ClaimType"] == cs[i].claimType && v[i]["ClaimValue"] == cs[i].claimValue
    {
      var f := ClaimRecord(cs[i]);
      assert f[1].0 == "ClaimType" && f[2].0 == "ClaimValue";
    }
  }

  // The statements, as the accessor sends them.
  const ClaimsSql: string := "SELECT * FROM \"AspNetUserClaims\" WHERE \"UserId\" = @userId"
  const DeleteAllSql: string := "DELETE FROM \"AspNetUserClaims\" WHERE \"UserId\" = @userId"
  const InsertSql: string := "INSERT INTO \"AspNetUserClaims\" (\"ClaimValue\", \"ClaimType\", \"UserId\") VALUES (@value, @type, @userId)"
  const DeleteOneSql: string := "DELETE FROM \"AspNetUserClaims\" WHERE \"UserId\" = @userId AND @ClaimValue = @value AND ClaimType = @type"

  class UserClaimsTable {
    const db: Database

    constructor (db: Database)
      ensures this.db == db
    {
      this.db := db;
    }

    method FindByUserId(userId: NStr) returns (r: Result<seq<Claim>>)
      modifies db`conn, db`calls
      ensures db.Session()
      ensures db.Opening().Ready? ==> r == ClaimsOf(db.tables.claims, userId)
      ensures db.Opening().Failed? ==> r == Err(db.Opening().error)
    {
      assert Bound(Some(map["userId" := ObjOf(userId)])) == map["userId" := Cell(userId)];
      var rows := db.Query(ClaimsSql, ClaimsOfUserId, Some(map["userId" := ObjOf(userId)]));
      ghost var selected := ClaimsOfUser(db.tables.claims, Cell(userId));
      RenderedClaims(selected);
      if rows.Err? {
        return Err(rows.error);
      }
      assert |rows.value| == |selected|;
      var claims: seq<Claim> := [];
      var i := 0;
      while i < |rows.value|
        invariant 0 <= i <= |rows.value|
        invariant |claims| == i
        invariant forall k :: 0 <= k < i ==> Complete(selected[k]) && claims[k] == ClaimOf(selected[k])
      {
        var claimType, claimValue := rows.value[i]["ClaimType"], rows.value[i]["ClaimValue"];
        if claimType.None? || claimValue.None? {
          assert !Complete(selected[i]);
          return Err(ArgumentNullError);
        }
        claims := claims + [Claim(claimType.value, claimValue.value)];
        i := i + 1;
      }
      assert forall k :: 0 <= k < |selected| ==> Complete(selected[k]);
      assert claims == seq(|selected|, k requires 0 <= k < |selected| => ClaimOf(selected[k]));
      r := Ok(claims);
    }

    /** `Delete(string userId)`. */
    method Delete(userId: NStr) returns (r: Result<int>)
      modifies db`conn, db`calls, db`tables
      ensures db.Session()
      ensures db.Opening().Ready? ==>
        && db.tables == old(db.tables).(claims := ClaimsNotOfUser(old(db.tables).claims, Cell(userId)))
        && r == Ok(|old(db.tables).claims| - |db.tables.claims|)
      ensures db.Opening().Failed? ==> r == Err(db.Opening().error) && db.tables == old(db.tables)
    {
      r := db.Execute(DeleteAllSql, DeleteClaimsOfUser, Some(map["userId" := ObjOf(userId)]));
    }

    method Insert(claim: Claim, userId: NStr) returns (r: Result<int>)
      modifies db`conn, db`calls, db`tables
      ensures db.Session()
      ensures db.Opening().Ready? ==>
        && db.tables == old(db.tables).(claims := old(db.tables).claims
                                                  + [ClaimRow(userId, Some(claim.claimType), Some(claim.claimValue))])
        && r == Ok(1)
      ensures db.Opening().Failed? ==> r == Err(db.Opening().error) && db.tables == old(db.tables)
    {
      r := db.Execute(InsertSql, InsertClaim,
                      Some(map["value" := Str(claim.claimValue), "type" := Str(claim.claimType), "userId" := ObjOf(userId)]));
    }

    /** `Delete(IdentityUser user, Claim claim)`: the statement names the column
        unquoted and compares two parameters, one of them never bound; the
        server rejects it, so no claim row is ever removed. */
    method DeleteClaim(user: User, claim: Claim) returns (r: Result<int>)
      modifies db`conn, db`calls, db`tables
      ensures db.Session()
      ensures db.tables == old(db.tables)
      ensures db.Opening().Ready? ==> r == Err(StorageFailure)
      ensures db.Opening().Failed? ==> r == Err(db.Opening().error)
    {
      r := db.Execute(DeleteOneSql, Write.DeleteClaim,
                      Some(map["userId" := ObjOf(user.id), "value" := Str(claim.claimValue), "type" := Str(claim.claimType)]));
    }
  }
}
