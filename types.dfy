/**
 * Records shared by the server: a player (`Jogador`) and a room (`Sala`),
 * with the fields that the room session manager reads and writes.
 */
module Types {

  /** Room status; the server produces only `Aguardando` and `EmJogo`. */
  datatype Status = Aguardando | EmJogo | Finalizada

  /**
   * A player of one room. `carta` is "" before the first deal, "espiao" for
   * the spy and the location's name for everybody else.
   */
  datatype Jogador = Jogador(
    id: string,
    nome: string,
    carta: string,
    cartaRevelada: bool,
    isHost: bool,
    socketId: string)

  /** A room: its code, its players in join order and the current round. */
  datatype Sala = Sala(
    codigo: string,
    jogadores: seq<Jogador>,
    local: string,
    espiao: string,
    status: Status,
    maxJogadores: int,
    criadaEm: int)   // milliseconds since the epoch
}
