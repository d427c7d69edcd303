/**
 * The expire timer of a secondary (section 4 of RFC 7314).
 */
module Expiry {

  /** A secondary's timer: expireAt is 0 when the time counts from the last success and the SOA EXPIRE value. */
  datatype Timer = Timer(expireAt: nat, lastOk: nat, expire: nat)

  /** zone_expire_deadline(): 0 means no deadline. */
  function Deadline(t: Timer): nat {
    if t.expireAt > 0 then t.expireAt
    else if t.lastOk > 0 && t.expire > 0 then t.lastOk + t.expire
    else 0
  }

  /** zone_expire_option_value() of a secondary: the seconds it has left. */
  function OptionValue(t: Timer, now: nat): nat {
    var d := Deadline(t);
    if d == 0 then t.expire
    else if d <= now then 0
    else if d - now > t.expire && t.expire > 0 then t.expire
    else d - now
  }

  /** xfr_expire_deadline(): the new expire_at after a transfer or an up-to-date answer. */
  function NewDeadline(transferred: bool, option: Option, soaExpire: nat, cur: nat, now: nat): nat {
    if option.Absent? then 0
    else
      var v := if soaExpire > 0 && option.seconds > soaExpire then soaExpire else option.seconds;
      var d := now + v;
      var e := if !transferred && cur > d then cur else d;
      if soaExpire > 0 && e > now + soaExpire then now + soaExpire else e
  }

  datatype Option = Absent | Present(seconds: nat)

  /**
   * What NewDeadline promises: after a transfer the option decides, up to SOA EXPIRE; after an up-to-date answer the
   * later of the option and the running timer, and never more than SOA EXPIRE from now.
   */
  lemma NewDeadlineMeaning(transferred: bool, seconds: nat, soaExpire: nat, cur: nat, now: nat)
    ensures var d := NewDeadline(transferred, Present(seconds), soaExpire, cur, now);
      && d >= now
      && (soaExpire > 0 ==> d <= now + soaExpire)
      && (transferred ==> d == now + if 0 < soaExpire < seconds then soaExpire else seconds)
      && (d <= now + seconds || d <= cur)
      && (!transferred ==> d >= now + if 0 < soaExpire < seconds then soaExpire else seconds)
      && (!transferred && (soaExpire == 0 || cur <= now + soaExpire) ==> d >= cur)
  {
  }

  /**
   * What OptionValue promises: the answer allows no more than SOA EXPIRE and nothing past the running deadline, and no
   * less than both allow; without a deadline it is SOA EXPIRE.
   */
  lemma OptionValueMeaning(t: Timer, now: nat)
    ensures var v, d := OptionValue(t, now), Deadline(t);
      && (t.expire > 0 ==> v <= t.expire)
      && (d > 0 ==> v == 0 || now + v <= d)
      && (d > now ==> now + v == d || v == t.expire > 0)
      && (d == 0 ==> v == t.expire)
  {
  }
}
