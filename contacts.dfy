/** The contact record the page receives from the `users.getAll` query. */
module Contacts {

  datatype Company = Company(name: string, catchPhrase: string)

  datatype Address = Address(street: string, city: string, zipcode: string)

  datatype User = User(
    id: int,
    name: string,
    email: string,
    phone: string,
    website: string,
    company: Company,
    address: Address)
}
