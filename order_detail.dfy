/**
 * The decisions the order page makes before it draws anything: whether an
 * order is still inside the 30-day return window, the status label, which
 * return panel to show, and whether a typed return reason may be sent.
 */
module OrderDetail {
  import opened Records

  /** `1000 * 60 * 60 * 24` */
  const MsPerDay := 86400000

  /** At most 30 whole days, rounded down, is less than 31 full days. */
  lemma WholeDays(x: int)
    ensures x / MsPerDay <= 30 <==> x < 31 * MsPerDay
  {
    var q, m := x / MsPerDay, x % MsPerDay;
    assert x == MsPerDay * q + m && 0 <= m < MsPerDay;
    if q <= 30 {
      assert MsPerDay * q <= MsPerDay * 30;
    } else {
      assert MsPerDay * q >= MsPerDay * 31;
    }
  }

  /**
   * Whole days since the order, rounded down, are at most 30: eligible exactly
   * when less than 31 full days have passed. Both dates are integer
   * milliseconds, and Dafny's `/` by a positive divisor rounds down like
   * `Math.floor`.
   */
  function IsReturnEligible(orderDate: int, now: int): (r: bool)
    ensures r <==> now - orderDate < 31 * MsPerDay
  {
    WholeDays(now - orderDate);
    (now - orderDate) / MsPerDay <= 30
  }

  /** Thirty days and any part of a day is still eligible; 31 full days is not. */
  lemma WindowBoundary(orderDate: int, part: int)
    requires 0 <= part < MsPerDay
    ensures IsReturnEligible(orderDate, orderDate + 30 * MsPerDay + part)
    ensures !IsReturnEligible(orderDate, orderDate + 31 * MsPerDay)
  {
  }

  /** Once the window has closed it stays closed. */
  lemma WindowStaysClosed(orderDate: int, now: int, later: int)
    requires !IsReturnEligible(orderDate, now) && now <= later
    ensures !IsReturnEligible(orderDate, later)
  {
  }

  /** An order dated after the clock (a negative difference) is eligible. */
  lemma FutureOrderEligible(orderDate: int, now: int)
    requires now < orderDate
    ensures IsReturnEligible(orderDate, now)
  {
  }

  /** The "Status" line. */
  function StatusLabel(returnStatus: Option<string>): (r: string)
    ensures r == "Returned" <==> returnStatus == Some(ReturnReturned)
    ensures r == "Return Pending" <==> returnStatus == Some(ReturnPending)
    ensures r == "Returned" || r == "Return Pending" || r == "Completed"
  {
    if returnStatus == Some(ReturnReturned) then "Returned"
    else if returnStatus == Some(ReturnPending) then "Return Pending"
    else "Completed"
  }

  /** The return part of the page. */
  datatype ReturnPanel =
    | ReturnedNotice   // "This order was returned on ..."
    | PendingNotice    // "Return Request Pending Admin Approval", with date and reason
    | ReturnOffer      // the "Request Return" button, or the form once opened
    | PeriodExpired    // "Return period has expired ..."

  /**
   * The notices follow the status label; a return is offered exactly for an
   * order labelled "Completed" that is still inside the window, so a rejected
   * return can be asked for again.
   */
  function PanelFor(o: Order, now: int): (r: ReturnPanel)
    ensures r == ReturnedNotice <==> StatusLabel(o.returnStatus) == "Returned"
    ensures r == PendingNotice <==> StatusLabel(o.returnStatus) == "Return Pending"
    ensures r == ReturnOffer <==> StatusLabel(o.returnStatus) == "Completed" && IsReturnEligible(o.date, now)
    ensures r == PeriodExpired <==> StatusLabel(o.returnStatus) == "Completed" && !IsReturnEligible(o.date, now)
    ensures o.returnStatus == Some(ReturnRejected) && IsReturnEligible(o.date, now) ==> r == ReturnOffer
  {
    if o.returnStatus == Some(ReturnReturned) then ReturnedNotice
    else if o.returnStatus == Some(ReturnPending) then PendingNotice
    else if IsReturnEligible(o.date, now) then ReturnOffer
    else PeriodExpired
  }

  // ---------------------------------------------------------------------
  // Submitting a return reason
  // ---------------------------------------------------------------------

  /**
   * The characters `String.prototype.trim` strips: ECMAScript WhiteSpace (tab,
   * vertical tab, form feed, space, no-break space, the byte order mark and the
   * other space separators) and LineTerminator (LF, CR, U+2028, U+2029).
   */
  predicate IsTrimmed(c: char) {
    || c == '\t' || c == '\U{000B}' || c == '\U{000C}' || c == ' ' || c == '\U{00A0}' || c == '\U{FEFF}'
    || c == '\U{1680}' || ('\U{2000}' <= c <= '\U{200A}') || c == '\U{202F}' || c == '\U{205F}' || c == '\U{3000}'
    || c == '\n' || c == '\r' || c == '\U{2028}' || c == '\U{2029}'
  }

  function TrimStart(s: string): (r: string)
    ensures |r| <= |s| && r == s[|s| - |r|..]
    ensures r != [] ==> !IsTrimmed(r[0])
  {
    if s != [] && IsTrimmed(s[0]) then TrimStart(s[1..]) else s
  }

  function TrimEnd(s: string): (r: string)
    ensures |r| <= |s| && r == s[..|r|]
    ensures r != [] ==> !IsTrimmed(r[|r| - 1])
  {
    if s != [] && IsTrimmed(s[|s| - 1]) then TrimEnd(s[..|s| - 1]) else s
  }

  function Trim(s: string): string {
    TrimEnd(TrimStart(s))
  }

  /** Every character is one that `trim` strips. */
  predicate IsBlank(s: string) {
    forall i :: 0 <= i < |s| ==> IsTrimmed(s[i])
  }

  /** `trim` leaves nothing exactly when the text is blank. */
  lemma {:induction false} TrimEmptyIffBlank(s: string)
    ensures Trim(s) == "" <==> IsBlank(s)
  {
    TrimStartEmptyIffBlank(s);
    var t := TrimStart(s);
    if t != [] {
      assert !IsTrimmed(t[0]);
      assert TrimEnd(t) != [] by {
        TrimEndKeepsFirst(t);
      }
    }
  }

  lemma {:induction false} TrimStartEmptyIffBlank(s: string)
    ensures TrimStart(s) == "" <==> IsBlank(s)
  {
    if s != [] && IsTrimmed(s[0]) {
      TrimStartEmptyIffBlank(s[1..]);
      assert IsBlank(s) <==> IsBlank(s[1..]) by {
        assert forall i :: 1 <= i < |s| ==> s[i] == s[1..][i - 1];
      }
    }
  }

  /** `TrimEnd` of a text that starts with a kept character keeps that character. */
  lemma {:induction false} TrimEndKeepsFirst(s: string)
    requires s != [] && !IsTrimmed(s[0])
    ensures TrimEnd(s) != []
  {
    if IsTrimmed(s[|s| - 1]) {
      assert |s| > 1;
      TrimEndKeepsFirst(s[..|s| - 1]);
    }
  }

  /** What pressing "Submit Request" does. */
  datatype SubmitOutcome =
    | BlankReasonAlert        // "Please provide a reason for the return"; nothing is sent
    | Cancelled               // the confirmation dialog was dismissed; nothing is sent
    | PostReturn(reason: string)  // POST /orders/:id/return with the reason as typed

  /**
   * The confirmation dialog's answer is a parameter. A blank reason is never
   * sent, and a sent reason is the untrimmed text.
   */
  function SubmitReturnRequest(reason: string, confirmed: bool): (r: SubmitOutcome)
    ensures r == BlankReasonAlert <==> IsBlank(reason)
    ensures r == Cancelled <==> !IsBlank(reason) && !confirmed
    ensures r.PostReturn? <==> !IsBlank(reason) && confirmed
    ensures r.PostReturn? ==> r.reason == reason
  {
    TrimEmptyIffBlank(reason);
    if Trim(reason) == "" then BlankReasonAlert
    else if !confirmed then Cancelled
    else PostReturn(reason)
  }

  /** A reason made only of spaces and line breaks is refused. */
  lemma WhitespaceReasonRefused()
    ensures SubmitReturnRequest(" \n\t\U{3000}", true) == BlankReasonAlert
  {
    var s := " \n\t\U{3000}";
    assert IsTrimmed(s[0]) && IsTrimmed(s[1]) && IsTrimmed(s[2]) && IsTrimmed(s[3]);
  }
}
