/**
 * The per-user session: whether the user is logged in, the user's name and the
 * budget unit chosen at login. It starts empty, login fills it, logout clears it.
 */
module SessionState {

  import opened Wrappers

  /** `lst.index(x)`: the first position of `x`, or `None` where Python raises ValueError. */
  function IndexOf(lst: seq<string>, x: string): (r: Option<nat>)
    ensures r.None? <==> x !in lst
    ensures r.Some? ==> r.value < |lst| && lst[r.value] == x && x !in lst[..r.value]
  {
    if lst == [] then None
    else if lst[0] == x then Some(0)
    else match IndexOf(lst[1..], x)
      case None => None
      case Some(i) =>
        assert lst[..i + 1] == [lst[0]] + lst[1..][..i];
        Some(i + 1)
  }

  /**
   * The position the login form pre-selects in `[''] + orgaos`: 0 for an empty unit,
   * otherwise one past the unit's position in `orgaos`; `None` where `orgaos.index`
   * would raise because the unit is not there.
   */
  function PreselectIndex(orgaos: seq<string>, unit: string): (r: Option<nat>)
    ensures r.None? <==> unit != "" && unit !in orgaos
    ensures r.Some? ==> r.value < |orgaos| + 1 && ([""] + orgaos)[r.value] == unit
    ensures r == Some(0) <==> unit == ""
  {
    if unit == "" then Some(0)
    else match IndexOf(orgaos, unit)
      case None => None
      case Some(i) => Some(i + 1)
  }

  class Session {
    var loginOk: bool
    var usuarioNome: string
    var unidadeOrcamentaria: string

    /**
     * What the session holds between interactions: a logged-in session has a name
     * and a unit taken from `orgaos`; a logged-out one holds nothing.
     */
    ghost predicate Valid(orgaos: seq<string>)
      reads this
    {
      if loginOk then usuarioNome != "" && unidadeOrcamentaria != "" && unidadeOrcamentaria in orgaos
      else usuarioNome == "" && unidadeOrcamentaria == ""
    }

    /** The defaults a new session starts with. */
    constructor ()
      ensures !loginOk && usuarioNome == "" && unidadeOrcamentaria == ""
      ensures forall orgaos :: Valid(orgaos)
    {
      loginOk := false;
      usuarioNome := "";
      unidadeOrcamentaria := "";
    }

    /**
     * The "Entrar" button: `unidade` comes from the drop-down `[''] + orgaos`. Login
     * succeeds exactly when both fields are filled in; otherwise nothing changes.
     */
    method Login(ghost orgaos: seq<string>, nome: string, unidade: string) returns (ok: bool)
      requires Valid(orgaos) && unidade in [""] + orgaos
      modifies this
      ensures Valid(orgaos)
      ensures ok <==> nome != "" && unidade != ""
      ensures ok ==> loginOk && usuarioNome == nome && unidadeOrcamentaria == unidade
      ensures !ok ==> unchanged(this)
    {
      if nome != "" && unidade != "" {
        loginOk := true;
        usuarioNome := nome;
        unidadeOrcamentaria := unidade;
        ok := true;
      } else {
        ok := false;
      }
    }

    /** The "Sair" button: all three fields are cleared. */
    method Logout()
      modifies this
      ensures !loginOk && usuarioNome == "" && unidadeOrcamentaria == ""
      ensures forall orgaos :: Valid(orgaos)
    {
      loginOk := false;
      usuarioNome := "";
      unidadeOrcamentaria := "";
    }

    /**
     * The index the login form's unit drop-down opens at: it points at the stored unit
     * in `[''] + orgaos`, which always exists for a valid session.
     */
    method LoginFormIndex(orgaos: seq<string>) returns (i: nat)
      requires Valid(orgaos)
      ensures i < |orgaos| + 1 && ([""] + orgaos)[i] == unidadeOrcamentaria
      ensures i == 0 <==> unidadeOrcamentaria == ""
    {
      var r := PreselectIndex(orgaos, unidadeOrcamentaria);
      i := r.value;
    }
  }
}
