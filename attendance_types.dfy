/**
 * The attendance status enumeration shared by the backend
 * (backend/types/index.ts) and the frontend (frontend/src/types/school.types.ts):
 * four literal tokens.
 */
module AttendanceTypes {
  import opened Wrappers

  type Id = string

  datatype Status = Present | Absent | Late | Excused

  /** The token a status is stored and sent as. */
  function Token(s: Status): string {
    match s
    case Present => "PRESENT"
    case Absent => "ABSENT"
    case Late => "LATE"
    case Excused => "EXCUSED"
  }

  /** Reads a token back; any string other than the four tokens is rejected. */
  function ParseStatus(t: string): (r: Option<Status>)
    ensures r.Some? <==> t == "PRESENT" || t == "ABSENT" || t == "LATE" || t == "EXCUSED"
    ensures r.Some? ==> Token(r.value) == t
  {
    if t == "PRESENT" then Some(Present)
    else if t == "ABSENT" then Some(Absent)
    else if t == "LATE" then Some(Late)
    else if t == "EXCUSED" then Some(Excused)
    else None
  }

  /** Tokens read back as the status they came from, so distinct statuses have distinct tokens. */
  lemma ParseToken(s: Status)
    ensures ParseStatus(Token(s)) == Some(s)
  {
  }

  /** The body of a single mark request (CreateAttendanceDTO); `comment` is None when omitted. */
  datatype CreateAttendanceDto = CreateAttendanceDto(sessionId: Id, studentId: Id, status: Status, comment: Option<string>)
}
