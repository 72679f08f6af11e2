/** Entities and enumerations of the match subsystem, and the error outcomes
    of the match service (one constructor per exception it throws). */
module MatchTypes {

  /** A participant's role in a channel. */
  datatype Role = Host | Manager | Player

  /** A participant's overall status. PROGRESS and DISQUALIFICATION are named by
      the match service, DropOut is what a drop-out sets, Request stands for
      every other status (a participant not yet admitted). */
  datatype ParticipantStatus = Request | Progress | DropOut | Disqualification

  /** A match's status; the service compares it only with InProgress (PROGRESS). */
  datatype MatchStatus = Ready | InProgress | End

  /** Participant ids are positions in the channel's participant list. */
  type ParticipantId = nat

  datatype Participant = Participant(role: Role, status: ParticipantStatus)

  /** A UTF-16 code unit: the value of a Java `char`. */
  newtype CodeUnit = x: int | 0 <= x < 0x1_0000

  /** A Java string: a sequence of UTF-16 code units. */
  type JavaString = seq<CodeUnit>

  /** A match of one round: its round number, its name and its status. */
  datatype Match = Match(round: int, name: JavaString, status: MatchStatus)

  /** A participant placed in a match (`matchIndex` is an index into the channel's
      match list) with the score reported for it. */
  datatype MatchPlayer = MatchPlayer(participant: ParticipantId, matchIndex: nat, score: int)

  /** The exceptions the service throws. */
  datatype Error =
    | ChannelNotFound          // ChannelNotFoundException
    | InvalidParticipantAuth   // InvalidParticipantAuthException
    | MatchNotEnoughPlayer     // MatchNotEnoughPlayerException
    | DivisionByZero           // ArithmeticException from an integer division by zero

  datatype Result<+T> = Success(value: T) | Failure(error: Error)

  datatype Outcome = Pass | Fail(error: Error)

  datatype Option<+T> = None | Some(value: T)

  /** Java's integer division by a positive divisor: rounds toward zero. */
  function JavaDiv(a: int, b: int): (r: int)
    requires b > 0
    ensures a >= 0 ==> 0 <= a - b * r < b
    ensures a < 0 ==> -b < a - b * r <= 0
  {
    if a >= 0 then a / b else -((-a) / b)
  }

  /** The code units of a string whose characters all lie in the Basic
      Multilingual Plane (a Java string literal of such characters). */
  function Utf16(s: string): (r: JavaString)
    requires forall i :: 0 <= i < |s| ==> s[i] as int < 0x1_0000
    ensures |r| == |s|
    ensures forall i :: 0 <= i < |s| ==> r[i] as int == s[i] as int
  {
    seq(|s|, i requires 0 <= i < |s| => s[i] as int as CodeUnit)
  }

  /** Java's `(char) x` for an int `x`: keeps the low 16 bits. */
  function CharCast(x: int): (c: CodeUnit)
    ensures 0 <= x < 0x1_0000 ==> c as int == x
    ensures (c as int - x) % 0x1_0000 == 0
  {
    (x % 0x1_0000) as CodeUnit
  }
}
